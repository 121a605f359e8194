/** The loan table's queries (`EmprestimoRepository`) as selections over the
    sequence of stored loans. "Active" means status `ATIVO` and nothing else:
    a renewed (`RENOVADO`) loan is not active for any of these queries. */
module LoanRepository {
  import opened Common
  import opened Seqs
  import opened Loans

  /** `e.status = 'ATIVO'`. */
  predicate IsActive(l: Loan) {
    l.status == Ativo
  }

  /** The WHERE clauses of the queries, as predicates on one row. */
  function OfUser(user: UserId): Loan -> bool {
    (l: Loan) => l.user == user
  }

  function OfBook(book: BookId): Loan -> bool {
    (l: Loan) => l.book == book
  }

  function WithStatus(status: LoanStatus): Loan -> bool {
    (l: Loan) => l.status == status
  }

  function DueBefore(today: Day): Loan -> bool {
    (l: Loan) => l.due < today
  }

  function OverdueAt(today: Day): Loan -> bool {
    (l: Loan) => IsActive(l) && l.due < today
  }

  function ActiveOfUser(user: UserId): Loan -> bool {
    (l: Loan) => l.user == user && IsActive(l)
  }

  function ActiveOfPair(user: UserId, book: BookId): Loan -> bool {
    (l: Loan) => l.user == user && l.book == book && IsActive(l)
  }

  function StartedWithin(from: Day, to: Day): Loan -> bool {
    (l: Loan) => from <= l.start <= to
  }

  /** `findByUsuarioId`. */
  function LoansOfUser(loans: seq<Loan>, user: UserId): (r: seq<Loan>)
    ensures forall i :: 0 <= i < |r| ==> r[i] in loans && r[i].user == user
    ensures forall i :: 0 <= i < |loans| && loans[i].user == user ==> loans[i] in r
    ensures forall x {:trigger multiset(r)[x]} :: multiset(r)[x] == if x.user == user then multiset(loans)[x] else 0
  {
    Filter(loans, OfUser(user))
  }

  /** `findByLivroId`. */
  function LoansOfBook(loans: seq<Loan>, book: BookId): (r: seq<Loan>)
    ensures forall i :: 0 <= i < |r| ==> r[i] in loans && r[i].book == book
    ensures forall i :: 0 <= i < |loans| && loans[i].book == book ==> loans[i] in r
    ensures forall x {:trigger multiset(r)[x]} :: multiset(r)[x] == if x.book == book then multiset(loans)[x] else 0
  {
    Filter(loans, OfBook(book))
  }

  /** `findByStatus`. */
  function LoansWithStatus(loans: seq<Loan>, status: LoanStatus): (r: seq<Loan>)
    ensures forall i :: 0 <= i < |r| ==> r[i] in loans && r[i].status == status
    ensures forall i :: 0 <= i < |loans| && loans[i].status == status ==> loans[i] in r
    ensures forall x {:trigger multiset(r)[x]} :: multiset(r)[x] == if x.status == status then multiset(loans)[x] else 0
  {
    Filter(loans, WithStatus(status))
  }

  /** `findEmprestimosAtivos`: the loans with status `ATIVO`. */
  function ActiveLoans(loans: seq<Loan>): (r: seq<Loan>)
    ensures forall i :: 0 <= i < |r| ==> r[i] in loans && r[i].status == Ativo
    ensures forall i :: 0 <= i < |loans| && loans[i].status == Ativo ==> loans[i] in r
    ensures forall x {:trigger multiset(r)[x]} :: multiset(r)[x] == if x.status == Ativo then multiset(loans)[x] else 0
  {
    Filter(loans, IsActive)
  }

  /** `findEmprestimosAtrasados(hoje)`: active loans due strictly before
      `today`. */
  function OverdueLoans(loans: seq<Loan>, today: Day): (r: seq<Loan>)
    ensures forall i :: 0 <= i < |r| ==> r[i] in loans && r[i].status == Ativo && r[i].due < today
    ensures forall i :: 0 <= i < |loans| && loans[i].status == Ativo && loans[i].due < today ==> loans[i] in r
    ensures forall x {:trigger multiset(r)[x]} :: multiset(r)[x] == if x.status == Ativo && x.due < today then multiset(loans)[x] else 0
  {
    Filter(loans, OverdueAt(today))
  }

  /** `findEmprestimosAtivosPorUsuario`: the user's active loans. */
  function ActiveLoansOfUser(loans: seq<Loan>, user: UserId): (r: seq<Loan>)
    ensures forall i :: 0 <= i < |r| ==> r[i] in loans && r[i].user == user && r[i].status == Ativo
    ensures forall i :: 0 <= i < |loans| && loans[i].user == user && loans[i].status == Ativo ==> loans[i] in r
    ensures forall x {:trigger multiset(r)[x]} :: multiset(r)[x] == if x.user == user && x.status == Ativo then multiset(loans)[x] else 0
  {
    Filter(loans, ActiveOfUser(user))
  }

  /** `findEmprestimoAtivo`: the user's active loans of one book. */
  function ActiveLoansOfPair(loans: seq<Loan>, user: UserId, book: BookId): (r: seq<Loan>)
    ensures forall i :: 0 <= i < |r| ==> r[i] in loans && r[i].user == user && r[i].book == book && r[i].status == Ativo
    ensures forall i :: 0 <= i < |loans| && loans[i].user == user && loans[i].book == book && loans[i].status == Ativo
              ==> loans[i] in r
    ensures forall x {:trigger multiset(r)[x]} :: multiset(r)[x] == if x.user == user && x.book == book && x.status == Ativo then multiset(loans)[x] else 0
  {
    Filter(loans, ActiveOfPair(user, book))
  }

  /** `countEmprestimosAtivos`, counted row by row. */
  function CountActive(loans: seq<Loan>): (n: nat)
    ensures n <= |loans|
    ensures n == 0 <==> forall i :: 0 <= i < |loans| ==> loans[i].status != Ativo
    ensures n == |ActiveLoans(loans)|
  {
    CountWhere(loans, IsActive)
  }

  /** `countEmprestimosAtrasados(hoje)`, counted row by row. */
  function CountOverdue(loans: seq<Loan>, today: Day): (n: nat)
    ensures n <= |loans|
    ensures n == 0 <==> forall i :: 0 <= i < |loans| ==> !(loans[i].status == Ativo && loans[i].due < today)
    ensures n == |OverdueLoans(loans, today)|
  {
    CountWhere(loans, OverdueAt(today))
  }

  /** `findByPeriodo`: loans started between `from` and `to`, both included
      (`BETWEEN`). */
  function LoansInPeriod(loans: seq<Loan>, from: Day, to: Day): (r: seq<Loan>)
    ensures forall i :: 0 <= i < |r| ==> r[i] in loans && from <= r[i].start <= to
    ensures forall i :: 0 <= i < |loans| && from <= loans[i].start <= to ==> loans[i] in r
    ensures forall x {:trigger multiset(r)[x]} :: multiset(r)[x] == if from <= x.start <= to then multiset(loans)[x] else 0
  {
    Filter(loans, StartedWithin(from, to))
  }

  /** The stored loan with a given id (`findByIdWithRelations`); ids are
      positions in the table. */
  function FindById(loans: seq<Loan>, id: nat): (r: Option<Loan>)
    ensures r.Some? <==> id < |loans|
    ensures r.Some? ==> r.value == loans[id]
  {
    if id < |loans| then Some(loans[id]) else None
  }

  /** "Active" is exactly the `ATIVO` status filter: a renewed loan is never
      in the active list. */
  lemma ActiveIsStatusAtivo(loans: seq<Loan>)
    ensures ActiveLoans(loans) == LoansWithStatus(loans, Ativo)
    ensures forall i :: 0 <= i < |loans| && loans[i].status == Renovado ==> loans[i] !in ActiveLoans(loans)
  {
    FilterSamePredicate(loans, IsActive, WithStatus(Ativo));
  }

  /** The overdue list is the active list restricted to loans due before
      today; so every overdue loan is active and there are never more
      overdue loans than active ones. */
  lemma OverdueWithinActive(loans: seq<Loan>, today: Day)
    ensures OverdueLoans(loans, today) == Filter(ActiveLoans(loans), DueBefore(today))
    ensures forall l :: l in OverdueLoans(loans, today) ==> l in ActiveLoans(loans)
    ensures |OverdueLoans(loans, today)| <= |ActiveLoans(loans)|
  {
    FilterOfFilter(loans, IsActive, DueBefore(today), OverdueAt(today));
  }

  /** The per-user active list is the active list filtered by user; the
      per-pair list is that list filtered further by book. */
  lemma ActiveListsNest(loans: seq<Loan>, user: UserId, book: BookId)
    ensures ActiveLoansOfUser(loans, user) == LoansOfUser(ActiveLoans(loans), user)
    ensures ActiveLoansOfPair(loans, user, book) == LoansOfBook(ActiveLoansOfUser(loans, user), book)
  {
    FilterOfFilter(loans, IsActive, OfUser(user), ActiveOfUser(user));
    FilterOfFilter(loans, ActiveOfUser(user), OfBook(book), ActiveOfPair(user, book));
  }

  /** Each count query returns the length of the matching find query. */
  lemma CountsMatchFinds(loans: seq<Loan>, today: Day)
    ensures CountActive(loans) == |ActiveLoans(loans)|
    ensures CountOverdue(loans, today) == |OverdueLoans(loans, today)|
  {
  }

  /** A period whose start lies after its end selects nothing; a one-day
      period selects the loans started on that day. */
  lemma PeriodBounds(loans: seq<Loan>, from: Day, to: Day)
    ensures from > to ==> LoansInPeriod(loans, from, to) == []
    ensures forall i :: 0 <= i < |loans| && loans[i].start == from ==> loans[i] in LoansInPeriod(loans, from, from)
  {
    if from > to {
      FilterNothing(loans, StartedWithin(from, to));
    }
  }

  /** The repository's overdue rows are overdue in the entity's sense too;
      the converse fails for renewed loans, which the query never lists. */
  lemma OverdueRowsAreOverdue(loans: seq<Loan>, today: Day)
    ensures forall l :: l in OverdueLoans(loans, today) ==> l.WellFormed() && IsOverdue(l, today)
  {
  }
}
