# Loans of the virtual library, in Dafny

This project models the lending core of the *Biblioteca Digital* web
application (a Spring Boot library system). It covers these parts:

- the loan entity (`Emprestimo`), with its creation defaults, its overdue
  check, its days-late count and fixed fine, and its return and renewal;
- the book entity's shelf counter (`Livro`): lending a copy, taking one back,
  and the availability flag;
- the loan service (`EmprestimoServiceImpl`): issuing, returning, renewing
  and cancelling loans, with its ordered eligibility checks and its limit of
  three `ATIVO` loans per user;
- the loan table's queries (`EmprestimoRepository`), as filters over a
  sequence of loans;
- the two fine policies (`MultaFixaStrategy`, `MultaProgressivaStrategy`)
  and the calculator that holds the current one (`MultaCalculator`);
- the two loan factories and their shared precondition check
  (`EmprestimoFactory`);
- the settings singleton (`ConfigurationManager`).

Conventions:

- Dates are whole day numbers (`Day = int`). The current date, which the
  source reads from `LocalDate.now()`, is an explicit `today` parameter.
- Money is in integer cents, so R$2.00 is 200.
- A loan's id is its position in the loan table.
- The database is a value: `LoanService.Library` holds users and books by id
  and the loan table as a sequence.
- Every service operation returns either a `Rejection` or the complete new
  state. A rejected request therefore changes nothing. The source
  (`@Transactional`, exceptions) likewise commits nothing when a request
  fails.

Files:

- `common.dfy`: `Option`, `Result` and the id and day types.
- `seqs.dfy`: a generic filter and count, with lemmas.
- `users.dfy`, `books.dfy`, `loans.dfy`: the entities.
- `fines.dfy`: the fine policies and the calculator.
- `repository.dfy`: the queries.
- `service.dfy`: the service operations.
- `service_properties.dfy`: the state invariant and the behaviours proved
  about the service.
- `factories.dfy`: the factories.
- `config.dfy`: the settings.

The service is modelled as the code is written. Four of its behaviours
are proved as lemmas:

- Only `ATIVO` loans count as active, so a `RENOVADO` loan blocks neither a
  second loan of the same book nor the limit of three.
- Return and cancellation refuse only a `DEVOLVIDO` loan. A `CANCELADO`
  loan can be cancelled again or returned, and each time its book takes a
  copy back.
- Taking a copy back is never bounded by the book's total, so the shelf
  count can exceed the number of copies owned.
- Renewing a cancelled loan that is not overdue is accepted and changes
  nothing.

Other facts about the code as written:

- The service never calls the factories or the fine calculator.
- No code ever assigns `ATRASADO`.

## Model

| member | source | states |
|---|---|---|
| Books.OnCreate | src/main/java/com/biblioteca/model/entity/Livro.java:83-92 | A newly persisted book is registered today. A missing status becomes `DISPONIVEL` and a missing available count becomes the total; values already set are kept. |
| Books.Lend | src/main/java/com/biblioteca/model/entity/Livro.java:97-111 | Only an available book loses a copy, and it becomes `INDISPONIVEL` when the last copy leaves. Any other book is unchanged. A non-negative count stays non-negative. |
| Books.TakeBack | src/main/java/com/biblioteca/model/entity/Livro.java:116-121 | The shelf count always grows by one, with no upper bound. A positive count marks the book `DISPONIVEL`. Identity, total and registration date are kept. |
| Books.LendThenTakeBack | src/main/java/com/biblioteca/model/entity/Livro.java:104-121 | Taking back a copy just lent from an available book restores the book exactly. |
| Books.TakeBackMakesAvailable | src/main/java/com/biblioteca/model/entity/Livro.java:97-121 | After a copy comes back to a book with a non-negative count, the book can be lent again, whatever its previous status. Lending it again restores the count. |
| Books.PersistedBookAvailability | src/main/java/com/biblioteca/model/entity/Livro.java:83-99 | A newly persisted book can be lent exactly when its count (the total, if unset) is positive and its status is `DISPONIVEL` or unset. A new book with copies and nothing else set can be lent. |
| Books.AvailableExactlyWhenLendable | src/main/java/com/biblioteca/model/entity/Livro.java:97-111 | `isDisponivel` decides whether lending does anything: an available book always loses a copy when lent, and any other book is left unchanged. |
| Loans.OnCreate | src/main/java/com/biblioteca/model/entity/Emprestimo.java:62-73 | On persisting a loan: a missing start date becomes today, a missing due date becomes start plus 14, and a missing status becomes `ATIVO`. Values already set, the user, the book and the notes are kept. |
| Loans.OnCreateOfBareDraft | src/main/java/com/biblioteca/model/entity/Emprestimo.java:62-73 | A loan built from only a user and a book becomes an `ATIVO` loan from today, due in 14 days, in the consistent shape. |
| Loans.IsOverdue | src/main/java/com/biblioteca/model/entity/Emprestimo.java:78-83 | For a consistent loan, overdue means the reference date (return date, else today) is past the due date. A loan without a return date is overdue exactly when today is past the due date. |
| Loans.DaysLate | src/main/java/com/biblioteca/model/entity/Emprestimo.java:88-94 | A loan that is not overdue has 0 days late. A returned loan, or one without a return date, never has negative days late. For a consistent loan, the days late are positive exactly when it is overdue, and equal the days from the due date to the reference date. |
| Loans.Fine | src/main/java/com/biblioteca/model/entity/Emprestimo.java:99-105 | The fine is never negative and is a whole number of R$2.00 units. It is positive exactly when some day is late. |
| Loans.LatenessOfConsistentLoan | src/main/java/com/biblioteca/model/entity/Emprestimo.java:78-105 | For a consistent loan, it is overdue exactly when the reference date (return date or today) is past the due date. The days late are then that difference, otherwise 0, and the fine is R$2.00 per late day. |
| Loans.FineExample | src/main/java/com/biblioteca/model/entity/Emprestimo.java:88-105 | A loan due on day 14 and returned on day 20 is 6 days late and owes R$12.00. |
| Loans.FineGrowsWithToday | src/main/java/com/biblioteca/model/entity/Emprestimo.java:78-105 | While a loan is out, its fine never decreases as days pass. |
| Loans.FineGrowsWithReturnDay | src/main/java/com/biblioteca/model/entity/Emprestimo.java:78-105 | For a returned loan, a later return date never gives a smaller fine. |
| Loans.Return | src/main/java/com/biblioteca/model/entity/Emprestimo.java:110-115 | Returning stamps today as the return date, records R$2.00 per day past the due date, marks the loan `DEVOLVIDO` and gives one copy back to the book. Nothing else changes. |
| Loans.ReturnIsConsistent | src/main/java/com/biblioteca/model/entity/Emprestimo.java:110-115 | Returning a loan whose due date is after its start produces a consistent returned loan. |
| Loans.Renew | src/main/java/com/biblioteca/model/entity/Emprestimo.java:120-125 | An `ATIVO` loan that is not overdue gets 14 more days and becomes `RENOVADO`, with nothing else changed. Any other loan is left as it was. |
| Loans.RenewTwice | src/main/java/com/biblioteca/model/entity/Emprestimo.java:120-125 | A second renewal, no earlier than the first, changes nothing, so the due date moves by 0 or 14 days in total. |
| Loans.RenewIsConsistent | src/main/java/com/biblioteca/model/entity/Emprestimo.java:120-125 | Renewal keeps a loan consistent. |
| Fines.FixedFine | src/main/java/com/biblioteca/pattern/strategy/MultaFixaStrategy.java:17-23 | The fixed policy charges nothing for zero or fewer late days, otherwise R$2.00 per day. |
| Fines.FixedFineMonotone | src/main/java/com/biblioteca/pattern/strategy/MultaFixaStrategy.java:17-23 | The fixed fine is never negative and never shrinks as lateness grows. |
| Fines.DayCharge | src/main/java/com/biblioteca/pattern/strategy/MultaProgressivaStrategy.java:28-35 | A single late day costs between R$1.00 and R$10.00, and never more than the uncapped progression. |
| Fines.ProgressiveFine | src/main/java/com/biblioteca/pattern/strategy/MultaProgressivaStrategy.java:19-41 | The progressive fine is 0 without late days. Otherwise it lies between R$1.00 and R$10.00 per late day. |
| Fines.ComputeProgressiveFine | src/main/java/com/biblioteca/pattern/strategy/MultaProgressivaStrategy.java:19-41 | The day-by-day loop computes exactly the sum of the capped day charges. |
| Fines.ProgressiveSixDays | src/main/java/com/biblioteca/pattern/strategy/MultaProgressivaStrategy.java:25-40 | Six late days cost R$13.50. |
| Fines.ProgressiveClosedForm | src/main/java/com/biblioteca/pattern/strategy/MultaProgressivaStrategy.java:27-38 | Up to 19 days, the fine is the arithmetic series 100·d + 25·d·(d−1) cents. |
| Fines.ProgressiveStrictlyIncreasing | src/main/java/com/biblioteca/pattern/strategy/MultaProgressivaStrategy.java:27-38 | Each extra late day adds at least R$1.00. |
| Fines.ProgressiveCapBinds | src/main/java/com/biblioteca/pattern/strategy/MultaProgressivaStrategy.java:32-35 | Before day 19, each day costs less than the cap. From day 19 on, each day adds exactly R$10.00. |
| Fines.ProgressiveBeyondCap | src/main/java/com/biblioteca/pattern/strategy/MultaProgressivaStrategy.java:27-38 | From 18 days on, the fine is R$94.50 plus R$10.00 per day beyond 18. |
| Fines.StrategyFine | src/main/java/com/biblioteca/pattern/strategy/MultaProgressivaStrategy.java:19-23 | Either policy applied to a loan is never negative and is 0 when the loan has no late days. Each policy applies its own formula to the loan's days late. |
| Fines.FixedStrategyMatchesEntity | src/main/java/com/biblioteca/pattern/strategy/MultaFixaStrategy.java:17-23 | The fixed policy charges exactly what the loan entity's own fine charges, for every loan and date. |
| Fines.Description | src/main/java/com/biblioteca/pattern/strategy/MultaFixaStrategy.java:26-28 | Each policy's description is non-empty. |
| Fines.DescriptionsDiffer | src/main/java/com/biblioteca/pattern/strategy/MultaFixaStrategy.java:26-28 | The two policy descriptions are different texts, so they tell the policies apart. |
| Fines.NewCalculator | src/main/java/com/biblioteca/pattern/strategy/MultaCalculator.java:18-20 | A new calculator charges exactly the loan entity's fixed fine. |
| Fines.SetStrategy | src/main/java/com/biblioteca/pattern/strategy/MultaCalculator.java:22-24 | After a policy is set, the calculator charges and describes by that policy. |
| Fines.Calculate | src/main/java/com/biblioteca/pattern/strategy/MultaCalculator.java:26-28 | The calculator's fine is never negative. With the fixed policy it equals the loan entity's own fine; with the progressive policy it is the progressive fine of the loan's days late. |
| Fines.CalculatorDescription | src/main/java/com/biblioteca/pattern/strategy/MultaCalculator.java:30-32 | The calculator describes itself by the description of the policy in use, which is non-empty. |
| Fines.LastStrategyWins | src/main/java/com/biblioteca/pattern/strategy/MultaCalculator.java:22-28 | When the policy is set twice, only the last one counts. |
| LoanRepository.LoansOfUser | src/main/java/com/biblioteca/repository/EmprestimoRepository.java:18 | Every row of the user is returned, as many times as it is stored, and no other row. |
| LoanRepository.LoansOfBook | src/main/java/com/biblioteca/repository/EmprestimoRepository.java:20 | Every row of the book is returned, as many times as it is stored, and no other row. |
| LoanRepository.LoansWithStatus | src/main/java/com/biblioteca/repository/EmprestimoRepository.java:22 | Every row with the status is returned, as many times as it is stored, and no other row. |
| LoanRepository.ActiveLoans | src/main/java/com/biblioteca/repository/EmprestimoRepository.java:24-25 | Every `ATIVO` row is returned, as many times as it is stored, and no other row. |
| LoanRepository.OverdueLoans | src/main/java/com/biblioteca/repository/EmprestimoRepository.java:27-28 | Every `ATIVO` row due strictly before today is returned, as many times as it is stored, and no other row. |
| LoanRepository.ActiveLoansOfUser | src/main/java/com/biblioteca/repository/EmprestimoRepository.java:30-31 | Every `ATIVO` row of the user is returned, as many times as it is stored, and no other row; so its length is the number the limit of three reads. |
| LoanRepository.CountActive | src/main/java/com/biblioteca/repository/EmprestimoRepository.java:33-34 | The count is the number of `ATIVO` rows: the length of the active list, at most the table size, and 0 exactly when no loan is `ATIVO`. |
| LoanRepository.CountOverdue | src/main/java/com/biblioteca/repository/EmprestimoRepository.java:36-37 | The count is the number of `ATIVO` rows due before today: the length of the overdue list, at most the table size, and 0 exactly when there is none. |
| LoanRepository.FindById | src/main/java/com/biblioteca/repository/EmprestimoRepository.java:39-40 | The lookup finds a loan exactly when the id exists, and then it is that loan. |
| LoanRepository.LoansInPeriod | src/main/java/com/biblioteca/repository/EmprestimoRepository.java:42-43 | Every row started between the two dates, both inclusive, is returned, as many times as it is stored, and no other row. |
| LoanRepository.ActiveLoansOfPair | src/main/java/com/biblioteca/repository/EmprestimoRepository.java:45-46 | Every `ATIVO` row of the user and the book is returned, as many times as it is stored, and no other row. |
| LoanRepository.ActiveIsStatusAtivo | src/main/java/com/biblioteca/repository/EmprestimoRepository.java:22-25 | The active list equals the `ATIVO` status list, and no `RENOVADO` loan is in it. |
| LoanRepository.OverdueWithinActive | src/main/java/com/biblioteca/repository/EmprestimoRepository.java:24-28 | The overdue list is the active list restricted to loans due before today, so it is never longer than the active list. |
| LoanRepository.ActiveListsNest | src/main/java/com/biblioteca/repository/EmprestimoRepository.java:30-46 | The per-user active list is the active list filtered by user. The per-user-and-book list is that list filtered by book. |
| LoanRepository.CountsMatchFinds | src/main/java/com/biblioteca/repository/EmprestimoRepository.java:24-37 | Each count query equals the length of its list query. |
| LoanRepository.PeriodBounds | src/main/java/com/biblioteca/repository/EmprestimoRepository.java:42-43 | An inverted period selects nothing. A one-day period selects every loan started that day. |
| LoanRepository.OverdueRowsAreOverdue | src/main/java/com/biblioteca/repository/EmprestimoRepository.java:27-28 | Every row of the overdue query is overdue by the entity's own check. |
| LoanService.HasActiveLoan | src/main/java/com/biblioteca/service/impl/EmprestimoServiceImpl.java:208-210 | This holds exactly when the table has an `ATIVO` loan of the book by the user. |
| LoanService.Issue | src/main/java/com/biblioteca/service/impl/EmprestimoServiceImpl.java:60-102 | The checks run in order and the first failure is reported: user exists, user active, book exists, book available, no `ATIVO` loan of the book, fewer than 3 `ATIVO` loans. The request succeeds exactly when all pass. Success appends, at the next id, an `ATIVO` 14-day loan from today with no return date, fine or notes. The book is lent by `emprestar`: one copy fewer, the same total, and `INDISPONIVEL` when the last copy leaves. Users, other books and other loans are unchanged. |
| LoanService.ReturnLoan | src/main/java/com/biblioteca/service/impl/EmprestimoServiceImpl.java:105-118 | Unknown and `DEVOLVIDO` loans are refused, and every other loan is accepted. The loan gets today's date, the R$2.00-per-day fine and `DEVOLVIDO`. Its book takes the copy back by `devolver`: one copy more, the same total and registration date, and `DISPONIVEL` when the count was not negative. Nothing else changes. |
| LoanService.RenewLoan | src/main/java/com/biblioteca/service/impl/EmprestimoServiceImpl.java:121-142 | Refusals come in order: unknown, `DEVOLVIDO`, overdue, `RENOVADO`. On success only the loan changes: an `ATIVO` loan gets 14 more days and becomes `RENOVADO`, and any other loan stays as it was. |
| LoanService.CancelLoan | src/main/java/com/biblioteca/service/impl/EmprestimoServiceImpl.java:145-160 | Unknown and `DEVOLVIDO` loans are refused. Any other loan becomes `CANCELADO`, and its book takes a copy back by `devolver`: one copy more, the same total and registration date, and `DISPONIVEL` when the count was not negative. Nothing else changes. |
| LoanServiceProperties.EmptyLibraryIsInvariant | src/main/java/com/biblioteca/service/impl/EmprestimoServiceImpl.java:30 | A library with no loans and no negative shelf count satisfies the invariant. |
| LoanServiceProperties.IssuePreservesInvariant | src/main/java/com/biblioteca/service/impl/EmprestimoServiceImpl.java:79-100 | Issuing keeps the invariant: consistent loans, no negative shelf count, at most one `ATIVO` loan per user and book, at most 3 per user. |
| LoanServiceProperties.ReturnPreservesInvariant | src/main/java/com/biblioteca/service/impl/EmprestimoServiceImpl.java:105-118 | Returning keeps the invariant. |
| LoanServiceProperties.RenewPreservesInvariant | src/main/java/com/biblioteca/service/impl/EmprestimoServiceImpl.java:121-142 | Renewing keeps the invariant. |
| LoanServiceProperties.CancelPreservesInvariant | src/main/java/com/biblioteca/service/impl/EmprestimoServiceImpl.java:145-160 | Cancelling keeps the invariant. |
| LoanServiceProperties.IssueRespectsLimit | src/main/java/com/biblioteca/service/impl/EmprestimoServiceImpl.java:84-100 | A successful issue raises the user's `ATIVO` count by one, to at most 3, and the user then holds the book. |
| LoanServiceProperties.IssueThenCancel | src/main/java/com/biblioteca/service/impl/EmprestimoServiceImpl.java:145-160 | Cancelling a loan just issued restores every book and keeps the loan as `CANCELADO`. |
| LoanServiceProperties.LastCopyIsLentOnce | src/main/java/com/biblioteca/service/impl/EmprestimoServiceImpl.java:74-77 | Once the last copy is lent, any further request for the book is refused as unavailable. |
| LoanServiceProperties.SecondRenewalRefused | src/main/java/com/biblioteca/service/impl/EmprestimoServiceImpl.java:127-137 | A loan renewed once is refused a second renewal: as already renewed before its new due date, as overdue after it. |
| LoanServiceProperties.RenewOfCancelledLoanIsNoOp | src/main/java/com/biblioteca/service/impl/EmprestimoServiceImpl.java:121-142 | Renewing a cancelled loan that is not overdue is accepted and changes nothing. |
| LoanServiceProperties.CancelledLoanGivesBackAgain | src/main/java/com/biblioteca/service/impl/EmprestimoServiceImpl.java:151-156 | A cancelled loan can be cancelled again or returned, and either way its book gets a second copy back. |
| LoanServiceProperties.StockCanExceedTotal | src/main/java/com/biblioteca/service/impl/EmprestimoServiceImpl.java:151-156 | One copy, lent once and cancelled twice, leaves two copies on the shelf, more than the total. |
| LoanServiceProperties.RenewedLoanDoesNotBlockReissue | src/main/java/com/biblioteca/service/impl/EmprestimoServiceImpl.java:79-88 | Once a user's `ATIVO` loan is renewed, the duplicate check no longer sees it. A new loan of the same book then succeeds exactly when the user, the book and the limit allow it. |
| LoanFactories.CheckPreconditions | src/main/java/com/biblioteca/pattern/factory/EmprestimoFactory.java:30-43 | The checks run in order and the first failure is reported: missing user, missing book, inactive user, unavailable book. Building is allowed exactly when all pass. |
| LoanFactories.CreateStandardLoan | src/main/java/com/biblioteca/pattern/factory/EmprestimoPadraoFactory.java:19-32 | After the checks, the factory builds an `ATIVO` loan from today, due in 14 days, with no notes. On failure it reports the same error as the checks. |
| LoanFactories.CreateExtendedLoan | src/main/java/com/biblioteca/pattern/factory/EmprestimoEstendidoFactory.java:20-34 | After the checks, the factory builds an `ATIVO` loan from today, due in 30 days, noted "Empréstimo estendido - 30 dias". |
| LoanFactories.FactoriesAgree | src/main/java/com/biblioteca/pattern/factory/EmprestimoEstendidoFactory.java:20-34 | Both factories refuse the same requests with the same error. An extended loan differs from a standard one only in being due 16 days later and in its note. |
| LoanFactories.PersistingKeepsFactoryDates | src/main/java/com/biblioteca/model/entity/Emprestimo.java:62-73 | Whenever the shared checks pass, persisting either factory's loan on any day keeps its dates and status and gives a consistent `ATIVO` loan. |
| LoanFactories.ServiceLoanIsStandardLoan | src/main/java/com/biblioteca/service/impl/EmprestimoServiceImpl.java:90-100 | Whenever the service issues a loan, the standard factory accepts the same user and book, and the stored loan equals the factory's loan once persisted. |
| LoanFactories.FactoryAcceptsWhatServiceRefuses | src/main/java/com/biblioteca/pattern/factory/EmprestimoFactory.java:30-43 | The factory checks are weaker than the service's. The factory accepts a user who already holds the book, and the service refuses that request as a duplicate. |
| Config.Defaults | src/main/java/com/biblioteca/pattern/singleton/ConfigurationManager.java:36-43 | The seven default keys and their values. The limit, loan length, extended length and fine rate equal the constants used by the service, the entity and the factories. |
| Config.NewManager | src/main/java/com/biblioteca/pattern/singleton/ConfigurationManager.java:32-44 | A new instance holds exactly the defaults and has counted no access. |
| Config.GetConfig | src/main/java/com/biblioteca/pattern/singleton/ConfigurationManager.java:61-64 | A lookup finds a value exactly when the key is stored, and then the stored value. It counts one access and changes nothing else. |
| Config.GetConfigOr | src/main/java/com/biblioteca/pattern/singleton/ConfigurationManager.java:70-74 | A lookup with a fallback returns the stored value, or the fallback when the key is missing. It counts one access. |
| Config.SetConfig | src/main/java/com/biblioteca/pattern/singleton/ConfigurationManager.java:79-81 | The key now holds the value. Every other key is unchanged, and the access count is unchanged. |
| Config.HasConfig | src/main/java/com/biblioteca/pattern/singleton/ConfigurationManager.java:86-88 | This holds exactly when a lookup of the key finds a value. |
| Config.GetAllConfigs | src/main/java/com/biblioteca/pattern/singleton/ConfigurationManager.java:93-95 | The snapshot has exactly the stored keys, with the values lookups return. |
| Config.ResetToDefaults | src/main/java/com/biblioteca/pattern/singleton/ConfigurationManager.java:107-116 | Reset restores exactly the default table and keeps the access count. |
| Config.GetAccessCount | src/main/java/com/biblioteca/pattern/singleton/ConfigurationManager.java:100-102 | The reported count is one less than it is after any lookup, and the same as after any set. |
| Config.Run | src/main/java/com/biblioteca/pattern/singleton/ConfigurationManager.java:61-116 | Over any sequence of requests the access count never goes down, and a sequence ending in a reset leaves exactly the defaults. |
| Config.SetThenGet | src/main/java/com/biblioteca/pattern/singleton/ConfigurationManager.java:61-81 | A stored value reads back unchanged, and storing it leaves every other key's lookup as it was. |
| Config.ResetForgetsSets | src/main/java/com/biblioteca/pattern/singleton/ConfigurationManager.java:107-116 | A set followed by a reset equals a reset alone, and a default key reads its default again. |
| Config.GetOrAgreesWithGet | src/main/java/com/biblioteca/pattern/singleton/ConfigurationManager.java:61-74 | The lookup with a fallback counts like a plain lookup. It uses the fallback exactly when the key is missing. |
| Config.AccessCountCountsLookups | src/main/java/com/biblioteca/pattern/singleton/ConfigurationManager.java:61-102 | After any sequence of requests, the access count has grown by exactly the number of lookups. Sets, checks, listings, counts and resets never change it. |
| Config.DefaultKeysAlwaysPresent | src/main/java/com/biblioteca/pattern/singleton/ConfigurationManager.java:79-116 | Every default key stays present after any sequence of requests. |

## Left out

- Integer widths: Java `Integer` shelf counts, `long` day counts and the `int` loop counter of the progressive fine are unbounded integers here. Overflow would need billions of copies or days.
- `BigDecimal` amounts are integer cents. Every amount the core produces is a whole number of cents, so nothing is rounded.
- `LocalDate.now()` is a parameter. Dates are day numbers, not calendar dates.
- Persistence is a value: there is no lazy loading, no transactions and no concurrency. `ConcurrentHashMap` and `AtomicLong` matter only under threads, and the instance is a single value passed along.
- `ConfigurationManager.getInstance` is not modelled. It only hands out the one shared instance, which is the value passed from operation to operation.
- Storing a null configuration value or using a null key is not modelled. The backing map throws on both, and `ConfigValue` has no null case.
- The settings hold Java objects of any type. The defaults are integers, one decimal (kept in hundredths) and one boolean; `TextValue` stands for the text a caller may set later. Other kinds of object are not modelled.
- The service's list and count methods only forward to the queries. They are modelled by the queries themselves. `listarTodos` and `buscarPorId` map rows to DTOs, and only `FindById` is modelled.
- Users are modelled only by their id and active flag. Books are modelled only by the shelf fields. Catalogue data (title, ISBN, authors, categories) is not modelled.
- Controllers, DTOs, reports, the dashboard, data seeding, the notification observers, and the CRUD services for books, users, authors and categories are not modelled.
- `equals` and `hashCode` of the entities are not modelled. Loans are compared as values.
- A returned loan without a return date makes `isAtrasado` throw. The loan operations that read lateness therefore require `WellFormed`, and the service's states satisfy it.
- Fines.Description: states only that each description is non-empty. The exact texts are in the body, and DescriptionsDiffer tells them apart.
