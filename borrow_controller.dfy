/** The borrow controller as the handlers run it: guards one after another
    with an early return each, then the writes to the request store and the
    book store in sequence. Each handler leaves exactly the outcome and the
    stores its lifecycle function describes, and so keeps what that
    function is proved to keep. */
module BorrowControllerImpl {
  import opened Common
  import opened EmailFormats
  import opened BookModel
  import opened BorrowRequestModel
  import opened BorrowLifecycle
  import opened BorrowInvariants

  class BorrowController {
    var requests: Requests
    var books: Books

    constructor(requests0: Requests, books0: Books)
      ensures requests == requests0 && books == books0
    {
      requests := requests0;
      books := books0;
    }

    function State(): Stores
      reads this
    {
      Stores(requests, books)
    }

    /** `submitBorrowRequest`. What it keeps follows from its lifecycle
        function: `SubmitKeepsRecords` and `SubmitKeepsLedger`. */
    method SubmitBorrowRequest(caller: Caller, f: SubmitForm, newId: DocId, now: Time, suffix: string)
      returns (result: Result<DocId, BorrowError>)
      modifies this
      ensures result == Submit(old(State()), caller, f, newId, now, suffix).result
      ensures State() == Submit(old(State()), caller, f, newId, now, suffix).after
    {
      if !RequiredPresent(f) {
        return Err(MissingFields);
      }
      if !MemberEmailOk(f.memberEmail.value) {
        return Err(InvalidEmail);
      }
      var duration := EffectiveDuration(f);
      if duration < MinDuration || duration > MaxDuration {
        return Err(InvalidDuration);
      }
      var bookId := f.bookId.value;
      if bookId !in books {
        return Err(BookNotFound);
      }
      var book := books[bookId];
      if !book.available {
        return Err(BookUnavailable);
      }
      if HasActiveRequest(requests, caller.id, bookId) {
        return Err(AlreadyActive);
      }
      var r := SubmittedRecord(caller, f, book, now, suffix);
      if !SchemaValid(r) {
        return Err(SchemaRejected);
      }
      if newId in requests || RequestNumberTaken(requests, r.requestId.value) {
        return Err(StorageFailure);
      }
      requests := requests[newId := r];
      return Ok(newId);
    }

    /** `updateBorrowRequest`: the switch decides the record update and the
      book update; the record is written first, then the book. */
    method UpdateBorrowRequest(actor: Caller, id: DocId, target: string, x: TransitionInput, now: Time)
      returns (result: Result<BorrowRequest, BorrowError>)
      modifies this
      ensures Step(result, State()) == Transition(old(State()), actor, id, target, x, now)
      ensures RecordsWellFormed(old(requests)) ==> RecordsWellFormed(requests)
      ensures old(LedgerConsistent(State())) && !old(ApprovesWhileOut(State(), id, target)) ==> LedgerConsistent(State())
    {
      ghost var st := State();
      if RecordsWellFormed(st.requests) {
        TransitionKeepsRecords(st, actor, id, target, x, now);
      }
      if id !in requests {
        return Err(RequestNotFound);
      }
      var r := requests[id];
      var plan := Plan(r, target, actor, x, now);
      if plan.Err? {
        return Err(plan.error);
      }
      var u := plan.value;
      requests := requests[id := u.record];
      if u.availability.Some? {
        if r.book !in books {
          if LedgerConsistent(st) && !ApprovesWhileOut(st, id, target) {
            TransitionKeepsLedger(st, actor, id, target, x, now);
          }
          return Err(StorageFailure);
        }
        books := books[r.book := books[r.book].(available := u.availability.value)];
      }
      if LedgerConsistent(st) && !ApprovesWhileOut(st, id, target) {
        TransitionKeepsLedger(st, actor, id, target, x, now);
      }
      return Ok(u.record);
    }

    /** `deleteBorrowRequest`: the availability restore comes before the
      record is removed. */
    method DeleteBorrowRequest(caller: Caller, id: DocId) returns (result: Result<(), BorrowError>)
      modifies this
      ensures Step(result, State()) == Delete(old(State()), caller, id)
      ensures RecordsWellFormed(old(requests)) ==> RecordsWellFormed(requests)
      ensures old(LedgerConsistent(State())) && old(id in requests ==> requests[id].status != Overdue)
              ==> LedgerConsistent(State())
    {
      ghost var st := State();
      if RecordsWellFormed(st.requests) {
        DeleteKeepsRecords(st, caller, id);
      }
      if LedgerConsistent(st) && (id in st.requests ==> st.requests[id].status != Overdue) {
        DeleteKeepsLedger(st, caller, id);
      }
      if id !in requests {
        return Err(RequestNotFound);
      }
      var r := requests[id];
      if caller.role != Admin && (r.user != caller.id || r.status != Pending) {
        return Err(NotAuthorized);
      }
      if (r.status == Approved || r.status == Borrowed) && r.book in books {
        books := books[r.book := books[r.book].(available := true)];
      }
      requests := requests - {id};
      return Ok(());
    }
  }
}
