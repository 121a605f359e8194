/** The loan service (`EmprestimoServiceImpl`): issuing, returning, renewing
    and cancelling loans against a snapshot of users, books and the loan
    table. Each operation either is rejected, leaving nothing changed, or
    yields the whole new snapshot. The service checks eligibility itself and
    uses the loan entity's own fixed-rate fine; it never calls the loan
    factories or the fine calculator. */
module LoanService {
  import opened Common
  import opened Seqs
  import Books
  import Users
  import opened Loans
  import Repo = LoanRepository

  /** `MAX_EMPRESTIMOS_ATIVOS`: most `ATIVO` loans a user may hold. */
  const MaxActiveLoans := 3

  /** What the service sees: users and books by id, and the loan table, in
      which a loan's id is its position. */
  datatype Library = Library(users: map<UserId, Users.User>, books: map<BookId, Books.Book>, loans: seq<Loan>)
  {
    /** Referential integrity of the loan table: every loan's book exists
        (the join the service follows to give a copy back), and every
        returned loan has a return date. */
    predicate Valid() {
      forall i :: 0 <= i < |loans| ==> loans[i].book in books && loans[i].WellFormed()
    }
  }

  /** Why a request was refused: the not-found lookups
      (`ResourceNotFoundException`) and the business rules
      (`BusinessException`). */
  datatype Rejection =
    | UserNotFound | InactiveUser | BookNotFound | BookUnavailable
    | DuplicateActiveLoan | LoanLimitReached
    | LoanNotFound | AlreadyReturned | CurrentlyOverdue | AlreadyRenewed

  /** A successful request: the new snapshot, and the id and state of the
      loan it concerned. */
  datatype Receipt = Receipt(state: Library, id: nat, loan: Loan)

  /** `usuarioPossuiEmprestimoAtivo`: the user holds an `ATIVO` loan of the
      book. */
  function HasActiveLoan(lib: Library, user: UserId, book: BookId): (b: bool)
    ensures b <==> exists i :: 0 <= i < |lib.loans| && lib.loans[i].user == user
                      && lib.loans[i].book == book && lib.loans[i].status == Ativo
  {
    var found := Repo.ActiveLoansOfPair(lib.loans, user, book);
    assert |found| > 0 ==> found[0] in lib.loans;
    |found| > 0
  }

  /** `realizarEmprestimo`: the checks run in order and the first failure
      wins; only a request passing all of them changes anything, and then it
      appends a new `ATIVO` 14-day loan and lends one copy of the book. */
  function Issue(lib: Library, user: UserId, book: BookId, today: Day): (r: Result<Receipt, Rejection>)
    ensures user !in lib.users ==> r == Err(UserNotFound)
    ensures user in lib.users && !lib.users[user].active ==> r == Err(InactiveUser)
    ensures user in lib.users && lib.users[user].active && book !in lib.books ==> r == Err(BookNotFound)
    ensures (user in lib.users && lib.users[user].active && book in lib.books
             && !lib.books[book].IsAvailable()) ==> r == Err(BookUnavailable)
    ensures (user in lib.users && lib.users[user].active && book in lib.books
             && lib.books[book].IsAvailable() && HasActiveLoan(lib, user, book))
            ==> r == Err(DuplicateActiveLoan)
    ensures (user in lib.users && lib.users[user].active && book in lib.books
             && lib.books[book].IsAvailable() && !HasActiveLoan(lib, user, book)
             && |Repo.ActiveLoansOfUser(lib.loans, user)| >= MaxActiveLoans)
            ==> r == Err(LoanLimitReached)
    ensures r.Ok? <==> (user in lib.users && lib.users[user].active && book in lib.books
                        && lib.books[book].IsAvailable() && !HasActiveLoan(lib, user, book)
                        && |Repo.ActiveLoansOfUser(lib.loans, user)| < MaxActiveLoans)
    ensures r.Ok? ==>
      var rc := r.value;
      && rc.id == |lib.loans|
      && rc.state.loans == lib.loans + [rc.loan]
      && rc.loan.user == user && rc.loan.book == book
      && rc.loan.start == today && rc.loan.due == today + LoanDays
      && rc.loan.status == Ativo && rc.loan.returned.None? && rc.loan.fine.None? && rc.loan.notes.None?
      && rc.state.users == lib.users
      && book in rc.state.books
      && rc.state.books == lib.books[book := Books.Lend(lib.books[book])]
      && rc.state.books[book].available == lib.books[book].available - 1
      && rc.state.books[book].total == lib.books[book].total
      && (rc.state.books[book].available == 0 ==> rc.state.books[book].status == Books.Indisponivel)
    ensures r.Ok? && lib.Valid() ==> r.value.state.Valid()
  {
    if user !in lib.users then Err(UserNotFound)
    else if !lib.users[user].active then Err(InactiveUser)
    else if book !in lib.books then Err(BookNotFound)
    else if !lib.books[book].IsAvailable() then Err(BookUnavailable)
    else if HasActiveLoan(lib, user, book) then Err(DuplicateActiveLoan)
    else if |Repo.ActiveLoansOfUser(lib.loans, user)| >= MaxActiveLoans then Err(LoanLimitReached)
    else
      var loan := OnCreate(LoanDraft(user, book, None, None, None, None), today);
      var state := lib.(books := lib.books[book := Books.Lend(lib.books[book])],
                        loans := lib.loans + [loan]);
      Ok(Receipt(state, |lib.loans|, loan))
  }

  /** `realizarDevolucao`: refuses an unknown loan and one already returned;
      any other loan (a cancelled one included) is returned by the entity:
      return date today, the fixed fine owed at today, status `DEVOLVIDO`,
      and one copy back to its book. Nothing else changes. */
  function ReturnLoan(lib: Library, id: nat, today: Day): (r: Result<Receipt, Rejection>)
    requires lib.Valid()
    ensures id >= |lib.loans| ==> r == Err(LoanNotFound)
    ensures id < |lib.loans| && lib.loans[id].status == Devolvido ==> r == Err(AlreadyReturned)
    ensures r.Ok? <==> id < |lib.loans| && lib.loans[id].status != Devolvido
    ensures r.Ok? ==>
      var prior, rc := lib.loans[id], r.value;
      && rc.id == id
      && rc.state.loans == lib.loans[id := rc.loan]
      && rc.loan == prior.(returned := Some(today), status := Devolvido, fine := rc.loan.fine)
      && rc.loan.fine == Some(if today > prior.due then FinePerDay * (today - prior.due) else 0)
      && rc.state.users == lib.users
      && prior.book in rc.state.books
      && rc.state.books == lib.books[prior.book := Books.TakeBack(lib.books[prior.book])]
      && rc.state.books[prior.book].available == lib.books[prior.book].available + 1
      && rc.state.books[prior.book].total == lib.books[prior.book].total
      && rc.state.books[prior.book].registeredOn == lib.books[prior.book].registeredOn
      && (lib.books[prior.book].available >= 0 ==> rc.state.books[prior.book].status == Books.Disponivel)
    ensures r.Ok? ==> r.value.state.Valid()
  {
    if id >= |lib.loans| then Err(LoanNotFound)
    else
      var loan := lib.loans[id];
      if loan.status == Devolvido then Err(AlreadyReturned)
      else
        var (returned, book) := Loans.Return(loan, lib.books[loan.book], today);
        var state := lib.(books := lib.books[loan.book := book], loans := lib.loans[id := returned]);
        Ok(Receipt(state, id, returned))
  }

  /** `renovarEmprestimo`: refuses, in this order, an unknown loan, a
      returned loan, an overdue loan and an already renewed loan; otherwise
      the entity renews it, which extends an `ATIVO` loan by 14 days and
      silently leaves any other loan (a cancelled one, say) as it was. */
  function RenewLoan(lib: Library, id: nat, today: Day): (r: Result<Receipt, Rejection>)
    ensures id >= |lib.loans| ==> r == Err(LoanNotFound)
    ensures id < |lib.loans| && lib.loans[id].status == Devolvido ==> r == Err(AlreadyReturned)
    ensures id < |lib.loans| && lib.loans[id].status != Devolvido && today > lib.loans[id].due
            ==> r == Err(CurrentlyOverdue)
    ensures id < |lib.loans| && lib.loans[id].status == Renovado && today <= lib.loans[id].due
            ==> r == Err(AlreadyRenewed)
    ensures r.Ok? <==> (id < |lib.loans| && lib.loans[id].status != Devolvido
                        && lib.loans[id].status != Renovado && today <= lib.loans[id].due)
    ensures r.Ok? ==>
      var prior, rc := lib.loans[id], r.value;
      && rc.id == id
      && rc.state == lib.(loans := lib.loans[id := rc.loan])
      && (prior.status == Ativo ==> rc.loan == prior.(due := prior.due + LoanDays, status := Renovado))
      && (prior.status != Ativo ==> rc.loan == prior)
    ensures r.Ok? && lib.Valid() ==> r.value.state.Valid()
  {
    if id >= |lib.loans| then Err(LoanNotFound)
    else
      var loan := lib.loans[id];
      if loan.status == Devolvido then Err(AlreadyReturned)
      else if IsOverdue(loan, today) then Err(CurrentlyOverdue)
      else if loan.status == Renovado then Err(AlreadyRenewed)
      else
        var renewed := Loans.Renew(loan, today);
        Ok(Receipt(lib.(loans := lib.loans[id := renewed]), id, renewed))
  }

  /** `cancelarEmprestimo`: refuses an unknown loan and a returned one; any
      other loan, an already cancelled one included, is marked `CANCELADO`
      and gives one copy back to its book. */
  function CancelLoan(lib: Library, id: nat): (r: Result<Library, Rejection>)
    requires lib.Valid()
    ensures id >= |lib.loans| ==> r == Err(LoanNotFound)
    ensures id < |lib.loans| && lib.loans[id].status == Devolvido ==> r == Err(AlreadyReturned)
    ensures r.Ok? <==> id < |lib.loans| && lib.loans[id].status != Devolvido
    ensures r.Ok? ==>
      var prior := lib.loans[id];
      && r.value.loans == lib.loans[id := prior.(status := Cancelado)]
      && r.value.users == lib.users
      && prior.book in r.value.books
      && r.value.books == lib.books[prior.book := Books.TakeBack(lib.books[prior.book])]
      && r.value.books[prior.book].available == lib.books[prior.book].available + 1
      && r.value.books[prior.book].total == lib.books[prior.book].total
      && r.value.books[prior.book].registeredOn == lib.books[prior.book].registeredOn
      && (lib.books[prior.book].available >= 0 ==> r.value.books[prior.book].status == Books.Disponivel)
    ensures r.Ok? ==> r.value.Valid()
  {
    if id >= |lib.loans| then Err(LoanNotFound)
    else
      var loan := lib.loans[id];
      if loan.status == Devolvido then Err(AlreadyReturned)
      else
        var book := Books.TakeBack(lib.books[loan.book]);
        Ok(lib.(books := lib.books[loan.book := book], loans := lib.loans[id := loan.(status := Cancelado)]))
  }
}
