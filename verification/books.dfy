/** The book entity (`Livro`) as far as lending is concerned: how many copies
    exist, how many are on the shelf, and a status flag that follows the
    shelf count when copies are lent out or come back. */
module Books {
  import opened Common

  /** `Livro.StatusLivro`. */
  datatype BookStatus = Disponivel | Indisponivel | EmManutencao | Descartado

  /** A catalogued book: `total` copies owned, `available` of them on the
      shelf. Java `Integer` fields; nothing in the entity keeps `available`
      between 0 and `total`. */
  datatype Book = Book(id: BookId, total: int, available: int, status: BookStatus, registeredOn: Day)
  {
    /** A copy can be lent: at least one on the shelf and the book is
        marked available. */
    predicate IsAvailable() {
      available > 0 && status == Disponivel
    }
  }

  /** A book as built before it is first persisted: the available count and
      the status may still be unset. */
  datatype BookDraft = BookDraft(id: BookId, total: int, available: Option<int>, status: Option<BookStatus>)

  /** The defaults applied when a book is first persisted: the registration
      date is today, a missing status is `DISPONIVEL` and a missing available
      count is the total. */
  function OnCreate(d: BookDraft, today: Day): (b: Book)
    ensures b.id == d.id && b.total == d.total && b.registeredOn == today
    ensures d.available.Some? ==> b.available == d.available.value
    ensures d.available.None? ==> b.available == d.total
    ensures d.status.Some? ==> b.status == d.status.value
    ensures d.status.None? ==> b.status == Disponivel
  {
    Book(d.id, d.total,
         if d.available.Some? then d.available.value else d.total,
         if d.status.Some? then d.status.value else Disponivel,
         today)
  }

  /** Lends one copy (`emprestar`): only an available book loses a copy, and
      the book is marked unavailable when its last copy leaves. */
  function Lend(b: Book): (r: Book)
    ensures r.id == b.id && r.total == b.total && r.registeredOn == b.registeredOn
    ensures b.IsAvailable() ==> r.available == b.available - 1
    ensures b.IsAvailable() && r.available == 0 ==> r.status == Indisponivel
    ensures b.IsAvailable() && r.available != 0 ==> r.status == b.status
    ensures !b.IsAvailable() ==> r == b
    ensures b.available >= 0 ==> r.available >= 0
  {
    if b.IsAvailable() then
      var left := b.available - 1;
      b.(available := left, status := if left == 0 then Indisponivel else b.status)
    else
      b
  }

  /** Takes one copy back (`devolver`): the shelf count always grows by one,
      with no check against the total, and a positive count marks the book
      available whatever its previous status was. */
  function TakeBack(b: Book): (r: Book)
    ensures r.id == b.id && r.total == b.total && r.registeredOn == b.registeredOn
    ensures r.available == b.available + 1
    ensures r.available > 0 ==> r.status == Disponivel
    ensures r.available <= 0 ==> r.status == b.status
  {
    var count := b.available + 1;
    b.(available := count, status := if count > 0 then Disponivel else b.status)
  }

  /** Lending a copy of an available book and taking it back restores the
      book exactly, status included. */
  lemma LendThenTakeBack(b: Book)
    requires b.IsAvailable()
    ensures TakeBack(Lend(b)) == b
  {
  }

  /** A book that has just taken a copy back can lend it again, whatever
      status it had, as long as the count was not negative. */
  lemma TakeBackMakesAvailable(b: Book)
    requires b.available >= 0
    ensures TakeBack(b).IsAvailable()
    ensures Lend(TakeBack(b)).available == b.available
  {
  }

  /** A freshly persisted book can be lent exactly when it has a copy on the
      shelf and is marked available, the unset fields counting as the total
      and `DISPONIVEL`; a new book with copies and nothing else set can. */
  lemma PersistedBookAvailability(d: BookDraft, today: Day)
    ensures OnCreate(d, today).IsAvailable() <==>
      (if d.available.Some? then d.available.value else d.total) > 0
      && (d.status.None? || d.status.value == Disponivel)
    ensures d.available.None? && d.status.None? && d.total > 0 ==> OnCreate(d, today).IsAvailable()
  {
  }

  /** `isDisponivel` decides whether lending does anything: an available
      book always changes when lent, any other book never does. */
  lemma AvailableExactlyWhenLendable(b: Book)
    ensures b.IsAvailable() <==> Lend(b) != b
    ensures b.IsAvailable() <==> Lend(b).available < b.available
  {
  }
}
