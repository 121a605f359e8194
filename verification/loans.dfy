/** The loan entity (`Emprestimo`): its creation defaults, the derived
    "overdue" view, the days-late count, the fixed fine of R$2.00 per late
    day, and the two transitions the entity performs itself, return and
    renew. */
module Loans {
  import opened Common
  import Books

  /** Length of a loan and of a renewal, in days (`DIAS_EMPRESTIMO_PADRAO`). */
  const LoanDays := 14

  /** Fine per late day in cents (`VALOR_MULTA_POR_DIA`, R$2.00). */
  const FinePerDay := 200

  /** `Emprestimo.StatusEmprestimo`. No code of the loan domain ever assigns
      `Atrasado`: lateness is computed, not stored. */
  datatype LoanStatus = Ativo | Devolvido | Atrasado | Renovado | Cancelado

  /** A loan of one copy of `book` to `user`: start date, due date, the
      return date once returned, the status, the fine charged at return and
      free-text notes. */
  datatype Loan = Loan(user: UserId, book: BookId, start: Day, due: Day, returned: Option<Day>,
                       status: LoanStatus, fine: Option<int>, notes: Option<string>)
  {
    /** What `isAtrasado` needs in order not to dereference a missing return
        date: a returned loan has one. */
    predicate WellFormed() {
      status == Devolvido ==> returned.Some?
    }

    /** The shape of every loan the service writes: return date and fine are
        set exactly when the loan is returned, the never-assigned `Atrasado`
        does not occur, and the due date lies after the start. */
    predicate Consistent() {
      && (returned.Some? <==> status == Devolvido)
      && (fine.Some? <==> status == Devolvido)
      && status != Atrasado
      && start < due
    }
  }

  /** A loan as built before it is first persisted: dates, status and notes
      may still be unset, and return date and fine are unset. */
  datatype LoanDraft = LoanDraft(user: UserId, book: BookId, start: Option<Day>, due: Option<Day>,
                                 status: Option<LoanStatus>, notes: Option<string>)

  /** The defaults applied when a loan is first persisted (`onCreate`): a
      missing start is today, a missing due date is the start plus 14 days,
      a missing status is `ATIVO`; values already set are kept. */
  function OnCreate(d: LoanDraft, today: Day): (l: Loan)
    ensures l.user == d.user && l.book == d.book && l.notes == d.notes
    ensures l.returned.None? && l.fine.None?
    ensures d.start.Some? ==> l.start == d.start.value
    ensures d.start.None? ==> l.start == today
    ensures d.due.Some? ==> l.due == d.due.value
    ensures d.due.None? ==> l.due == l.start + LoanDays
    ensures d.status.Some? ==> l.status == d.status.value
    ensures d.status.None? ==> l.status == Ativo
  {
    var start := if d.start.Some? then d.start.value else today;
    Loan(d.user, d.book, start,
         if d.due.Some? then d.due.value else start + LoanDays,
         None,
         if d.status.Some? then d.status.value else Ativo,
         None,
         d.notes)
  }

  /** A loan built from nothing but its user and book is, once persisted, an
      active 14-day loan in the consistent shape. */
  lemma OnCreateOfBareDraft(user: UserId, book: BookId, today: Day)
    ensures var l := OnCreate(LoanDraft(user, book, None, None, None, None), today);
      && l.Consistent() && l.status == Ativo && l.start == today && l.due == today + LoanDays
  {
  }

  /** `isAtrasado`: a returned loan is late when it came back after the due
      date; any other loan is late when today is past the due date. */
  function IsOverdue(l: Loan, today: Day): (late: bool)
    requires l.WellFormed()
    ensures l.Consistent() ==> (late <==> ReferenceDay(l, today) > l.due)
    ensures l.returned.None? ==> (late <==> today > l.due)
  {
    if l.status == Devolvido then l.returned.value > l.due else today > l.due
  }

  /** The date lateness is measured at: the return date once set, else today. */
  function ReferenceDay(l: Loan, today: Day): Day {
    if l.returned.Some? then l.returned.value else today
  }

  /** `getDiasAtraso`: zero for a loan that is not late, otherwise the days
      from the due date to the reference date. */
  function DaysLate(l: Loan, today: Day): (days: int)
    requires l.WellFormed()
    ensures !IsOverdue(l, today) ==> days == 0
    ensures l.status == Devolvido || l.returned.None? ==> days >= 0
    ensures l.Consistent() ==> (days > 0 <==> IsOverdue(l, today))
    ensures l.Consistent() ==> days == (if ReferenceDay(l, today) > l.due then ReferenceDay(l, today) - l.due else 0)
  {
    if !IsOverdue(l, today) then 0 else ReferenceDay(l, today) - l.due
  }

  /** `calcularMulta`: R$2.00 per late day, nothing when no day is late. */
  function Fine(l: Loan, today: Day): (cents: int)
    requires l.WellFormed()
    ensures cents >= 0
    ensures cents % FinePerDay == 0
    ensures cents > 0 <==> DaysLate(l, today) > 0
  {
    var days := DaysLate(l, today);
    if days > 0 then FinePerDay * days else 0
  }

  /** For a consistent loan, being overdue means the reference date is past
      the due date, the days late are the days past it (never negative),
      and the fine is R$2.00 for each of them. */
  lemma LatenessOfConsistentLoan(l: Loan, today: Day)
    requires l.Consistent()
    ensures IsOverdue(l, today) <==> ReferenceDay(l, today) > l.due
    ensures DaysLate(l, today) == (if ReferenceDay(l, today) > l.due then ReferenceDay(l, today) - l.due else 0)
    ensures DaysLate(l, today) > 0 <==> IsOverdue(l, today)
    ensures Fine(l, today) == FinePerDay * DaysLate(l, today)
  {
  }

  /** A loan due on day 14 and returned on day 20 is six days late and owes
      R$12.00. */
  lemma FineExample()
    ensures var l := Loan(0, 0, 0, 14, Some(20), Devolvido, None, None);
      DaysLate(l, 20) == 6 && Fine(l, 20) == 1200
  {
  }

  /** While a consistent loan is out, its fine never shrinks as days pass. */
  lemma FineGrowsWithToday(l: Loan, earlier: Day, later: Day)
    requires l.Consistent() && l.status != Devolvido
    requires earlier <= later
    ensures 0 <= Fine(l, earlier) <= Fine(l, later)
  {
    LatenessOfConsistentLoan(l, earlier);
    LatenessOfConsistentLoan(l, later);
  }

  /** For a returned loan, a later return date never gives a smaller fine. */
  lemma FineGrowsWithReturnDay(l: Loan, earlier: Day, later: Day, today: Day)
    requires l.Consistent() && l.status == Devolvido
    requires earlier <= later
    ensures Fine(l.(returned := Some(earlier)), today) <= Fine(l.(returned := Some(later)), today)
  {
    LatenessOfConsistentLoan(l.(returned := Some(earlier)), today);
    LatenessOfConsistentLoan(l.(returned := Some(later)), today);
  }

  /** `realizarDevolucao`: stamps today as the return date, records the fine
      owed at today, marks the loan returned and gives the copy back to the
      book. The entity itself does not refuse an already returned loan. */
  function Return(l: Loan, book: Books.Book, today: Day): (r: (Loan, Books.Book))
    ensures r.0.returned == Some(today) && r.0.status == Devolvido
    ensures r.0.fine == Some(if today > l.due then FinePerDay * (today - l.due) else 0)
    ensures r.0.user == l.user && r.0.book == l.book && r.0.notes == l.notes
    ensures r.0.start == l.start && r.0.due == l.due
    ensures r.1 == Books.TakeBack(book)
  {
    var stamped := l.(returned := Some(today));
    var owed := Fine(stamped, today);
    (stamped.(fine := Some(owed), status := Devolvido), Books.TakeBack(book))
  }

  /** A return turns any loan whose due date lies after its start into a
      consistent returned loan. */
  lemma ReturnIsConsistent(l: Loan, book: Books.Book, today: Day)
    requires l.start < l.due
    ensures Return(l, book, today).0.Consistent()
  {
  }

  /** `renovar`: an active loan that is not overdue gets 14 more days and is
      marked renewed; in every other case nothing changes. */
  function Renew(l: Loan, today: Day): (r: Loan)
    ensures l.status == Ativo && today <= l.due ==>
      r.due == l.due + LoanDays && r.status == Renovado && r.(due := l.due, status := Ativo) == l
    ensures !(l.status == Ativo && today <= l.due) ==> r == l
  {
    if l.status == Ativo && !IsOverdue(l, today) then
      l.(due := l.due + LoanDays, status := Renovado)
    else
      l
  }

  /** Renewing twice, the second time no earlier than the first, is
      renewing once: the second call never changes anything, so the due date
      moves by 0 or 14 days in total. */
  lemma RenewTwice(l: Loan, first: Day, second: Day)
    requires first <= second
    ensures Renew(Renew(l, first), second) == Renew(l, first)
    ensures var d := Renew(Renew(l, first), second).due - l.due; d == 0 || d == LoanDays
  {
  }

  /** Renewal keeps a loan consistent. */
  lemma RenewIsConsistent(l: Loan, today: Day)
    requires l.Consistent()
    ensures Renew(l, today).Consistent()
  {
  }
}
