/** The loan factories (`EmprestimoFactory` and its two concrete kinds): a
    shared precondition check, then a 14-day standard loan or a 30-day
    extended loan that carries a note. A factory builds the loan as the
    builder leaves it, before it is persisted; the loan service never calls
    either factory. */
module LoanFactories {
  import opened Common
  import Books
  import Users
  import opened Loans
  import LoanService

  /** `DIAS_EMPRESTIMO_PADRAO` and `DIAS_EMPRESTIMO_ESTENDIDO`. */
  const StandardDays := 14
  const ExtendedDays := 30

  /** The note the extended factory attaches. */
  const ExtendedNote := "Empréstimo estendido - 30 dias"

  /** Why `validarPreCondicoes` refused: a missing user or book
      (`IllegalArgumentException`), an inactive user or an unavailable book
      (`IllegalStateException`). */
  datatype FactoryError = NullUser | NullBook | InactiveUser | BookUnavailable

  /** `validarPreCondicoes`: the checks run in order and the first failing
      one is reported; `None` means the loan may be built. */
  function CheckPreconditions(user: Option<Users.User>, book: Option<Books.Book>): (e: Option<FactoryError>)
    ensures user.None? ==> e == Some(NullUser)
    ensures user.Some? && book.None? ==> e == Some(NullBook)
    ensures user.Some? && book.Some? && !user.value.active ==> e == Some(InactiveUser)
    ensures user.Some? && book.Some? && user.value.active && !book.value.IsAvailable()
            ==> e == Some(BookUnavailable)
    ensures e.None? <==> user.Some? && book.Some? && user.value.active && book.value.IsAvailable()
  {
    if user.None? then Some(NullUser)
    else if book.None? then Some(NullBook)
    else if !user.value.active then Some(InactiveUser)
    else if !book.value.IsAvailable() then Some(BookUnavailable)
    else None
  }

  /** What both factories share: after the checks, a loan starting today,
      due `days` later, `ATIVO`, with the given notes. */
  function Build(user: Option<Users.User>, book: Option<Books.Book>, today: Day, days: int,
                 notes: Option<string>): Result<LoanDraft, FactoryError>
  {
    var e := CheckPreconditions(user, book);
    if e.Some? then Err(e.value)
    else Ok(LoanDraft(user.value.id, book.value.id, Some(today), Some(today + days), Some(Ativo), notes))
  }

  /** `EmprestimoPadraoFactory.criarEmprestimo`: a 14-day loan without notes. */
  function CreateStandardLoan(user: Option<Users.User>, book: Option<Books.Book>, today: Day): (r: Result<LoanDraft, FactoryError>)
    ensures r.Err? <==> CheckPreconditions(user, book).Some?
    ensures r.Err? ==> r.error == CheckPreconditions(user, book).value
    ensures r.Ok? ==>
      && r.value.user == user.value.id && r.value.book == book.value.id
      && r.value.start == Some(today) && r.value.due == Some(today + StandardDays)
      && r.value.status == Some(Ativo) && r.value.notes.None?
  {
    Build(user, book, today, StandardDays, None)
  }

  /** `EmprestimoEstendidoFactory.criarEmprestimo`: a 30-day loan noted as
      extended. */
  function CreateExtendedLoan(user: Option<Users.User>, book: Option<Books.Book>, today: Day): (r: Result<LoanDraft, FactoryError>)
    ensures r.Err? <==> CheckPreconditions(user, book).Some?
    ensures r.Err? ==> r.error == CheckPreconditions(user, book).value
    ensures r.Ok? ==>
      && r.value.user == user.value.id && r.value.book == book.value.id
      && r.value.start == Some(today) && r.value.due == Some(today + ExtendedDays)
      && r.value.status == Some(Ativo) && r.value.notes == Some(ExtendedNote)
  {
    Build(user, book, today, ExtendedDays, Some(ExtendedNote))
  }

  /** The two factories accept and refuse exactly the same requests; an
      extended loan differs from a standard one only in being due 16 days
      later and in its note. */
  lemma FactoriesAgree(user: Option<Users.User>, book: Option<Books.Book>, today: Day)
    ensures CreateStandardLoan(user, book, today).Err? <==> CreateExtendedLoan(user, book, today).Err?
    ensures CreateStandardLoan(user, book, today).Err? ==>
      CreateStandardLoan(user, book, today).error == CreateExtendedLoan(user, book, today).error
    ensures CreateStandardLoan(user, book, today).Ok? ==>
      var standard, extended := CreateStandardLoan(user, book, today).value, CreateExtendedLoan(user, book, today).value;
      && extended.due.value == standard.due.value + 16
      && extended == standard.(due := extended.due, notes := Some(ExtendedNote))
  {
  }

  /** Whenever the shared checks pass, each factory builds a loan with all
      its dates and its status set, so persisting it, on whatever day, keeps
      them: the result is a consistent `ATIVO` loan that starts on the
      factory's day. */
  lemma PersistingKeepsFactoryDates(user: Option<Users.User>, book: Option<Books.Book>, today: Day, persisted: Day)
    requires CheckPreconditions(user, book).None?
    ensures var s := OnCreate(CreateStandardLoan(user, book, today).value, persisted);
      && s.start == today && s.due == today + StandardDays && s.status == Ativo && s.Consistent()
    ensures var x := OnCreate(CreateExtendedLoan(user, book, today).value, persisted);
      && x.start == today && x.due == today + ExtendedDays && x.status == Ativo && x.Consistent()
      && x.notes == Some(ExtendedNote)
  {
  }

  /** The service builds its loans without the factories, yet whenever it
      issues one, the standard factory would have accepted the same user and
      book, and the loan it stores is exactly the standard factory's loan once
      persisted. */
  lemma ServiceLoanIsStandardLoan(lib: LoanService.Library, user: UserId, book: BookId, today: Day)
    requires LoanService.Issue(lib, user, book, today).Ok?
    requires lib.users[user].id == user && lib.books[book].id == book
    ensures var made := CreateStandardLoan(Some(lib.users[user]), Some(lib.books[book]), today);
      && made.Ok?
      && OnCreate(made.value, today) == LoanService.Issue(lib, user, book, today).value.loan
  {
  }

  /** The converse fails: the factories' checks are weaker than the
      service's, which also refuses a second `ATIVO` loan of the same book
      and a fourth `ATIVO` loan. */
  lemma FactoryAcceptsWhatServiceRefuses()
    ensures var u, b := Users.User(0, true), Books.Book(0, 2, 2, Books.Disponivel, 0);
      var lib := LoanService.Library(map[0 := u], map[0 := b],
                                     [Loan(0, 0, 0, 14, None, Ativo, None, None)]);
      && CreateStandardLoan(Some(u), Some(b), 1).Ok?
      && LoanService.Issue(lib, 0, 0, 1) == Err(LoanService.DuplicateActiveLoan)
  {
    var lib := LoanService.Library(map[0 := Users.User(0, true)], map[0 := Books.Book(0, 2, 2, Books.Disponivel, 0)],
                                   [Loan(0, 0, 0, 14, None, Ativo, None, None)]);
    assert lib.loans[0].user == 0 && lib.loans[0].book == 0 && lib.loans[0].status == Ativo;
    assert LoanService.HasActiveLoan(lib, 0, 0);
  }
}
