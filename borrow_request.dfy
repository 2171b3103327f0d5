/** The borrow-request record: its status enumeration, schema defaults and
    validators, the request-number hook, and the derived values (overdue,
    days remaining, fine) the schema computes from its fields. */
module BorrowRequestModel {
  import opened Common
  import opened EmailFormats
  import opened BookModel

  type UserId = string

  /** The store's own document key (`_id`). */
  type DocId = string

  datatype Status = Pending | Approved | Rejected | Borrowed | Returned | Overdue

  function StatusName(s: Status): string {
    match s
    case Pending => "pending"
    case Approved => "approved"
    case Rejected => "rejected"
    case Borrowed => "borrowed"
    case Returned => "returned"
    case Overdue => "overdue"
  }

  /** Reads one of the six enumeration values; any other string is not a
      status. */
  function ParseStatus(name: string): (r: Option<Status>)
    ensures r.Some? ==> StatusName(r.value) == name
  {
    if name == "pending" then Some(Pending)
    else if name == "approved" then Some(Approved)
    else if name == "rejected" then Some(Rejected)
    else if name == "borrowed" then Some(Borrowed)
    else if name == "returned" then Some(Returned)
    else if name == "overdue" then Some(Overdue)
    else None
  }

  /** Every status is named by exactly one string of the enumeration. */
  lemma ParseStatusName(s: Status)
    ensures ParseStatus(StatusName(s)) == Some(s)
  {
  }

  const DefaultDuration: int := 14
  const MinDuration: int := 1
  const MaxDuration: int := 30
  /** The fine rate: one currency unit per day late. */
  const FinePerDay: int := 1
  const RequestIdPrefix: string := "BRW-"

  datatype BorrowRequest = BorrowRequest(
    user: UserId,
    book: BookId,
    bookTitle: string,
    bookAuthor: string,
    bookCover: string,
    libraryCardId: string,
    memberName: string,
    memberEmail: string,
    memberPhone: string,
    borrowDuration: int,
    status: Status,
    submittedAt: Time,
    approvedBy: string,
    approvedAt: Option<Time>,
    dueDate: Option<Time>,
    returnedDate: Option<Time>,
    borrowedAt: Option<Time>,
    rejectionReason: string,
    rejectedBy: string,
    rejectedAt: Option<Time>,
    fine: int,
    requestId: Option<string>)

  /** A record as the schema builds it from the submitted fields: status
      `pending`, no fine, no actor names, no dates but the submission time,
      no request number yet. */
  function NewRequest(user: UserId, book: BookId, bookTitle: string, bookAuthor: string,
                      bookCover: string, libraryCardId: string, memberName: string,
                      memberEmail: string, memberPhone: string, duration: int, now: Time): (r: BorrowRequest)
    ensures r.status == Pending && r.fine == 0 && r.requestId.None?
    ensures r.approvedAt.None? && r.dueDate.None? && r.returnedDate.None?
    ensures r.borrowedAt.None? && r.rejectedAt.None?
    ensures r.approvedBy == "" && r.rejectedBy == "" && r.rejectionReason == ""
    ensures r.submittedAt == now && r.borrowDuration == duration
    ensures r.user == user && r.book == book
  {
    BorrowRequest(user, book, bookTitle, bookAuthor, bookCover, libraryCardId, memberName,
                  memberEmail, memberPhone, duration, Pending, now, "", None, None, None, None,
                  "", "", None, 0, None)
  }

  /** The schema's validators: the required fields non-empty, the member
      e-mail in the form's format, the duration in [1, 30], the fine not
      negative. (The status is one of the six values by its type.) */
  predicate SchemaValid(r: BorrowRequest) {
    r.user != "" && r.book != "" && r.bookTitle != "" && r.bookAuthor != ""
    && r.libraryCardId != "" && r.memberName != "" && r.memberEmail != ""
    && MemberEmailOk(r.memberEmail)
    && MinDuration <= r.borrowDuration <= MaxDuration
    && r.fine >= 0
  }

  /** The request number the hook makes from the clock and a random suffix. */
  function RequestNumber(now: Time, suffix: string): (s: string)
    ensures |s| > |RequestIdPrefix| && s[..|RequestIdPrefix|] == RequestIdPrefix
  {
    RequestIdPrefix + IntToDecimal(now) + "-" + suffix
  }

  /** The pre-save hook: a record without a request number gets one; a record
      that has one keeps it, and no other field moves. */
  function AssignRequestId(r: BorrowRequest, now: Time, suffix: string): (s: BorrowRequest)
    ensures Present(s.requestId)
    ensures Present(r.requestId) ==> s == r
    ensures !Present(r.requestId) ==> s == r.(requestId := Some(RequestNumber(now, suffix)))
  {
    if Present(r.requestId) then r else r.(requestId := Some(RequestNumber(now, suffix)))
  }

  /** Running the hook on every later save never changes the number it gave. */
  lemma RequestIdStable(r: BorrowRequest, now: Time, suffix: string, later: Time, suffix2: string)
    ensures AssignRequestId(AssignRequestId(r, now, suffix), later, suffix2) == AssignRequestId(r, now, suffix)
  {
  }

  /** The `isOverdue` virtual: borrowed, with a due date strictly before now. */
  predicate IsOverdue(r: BorrowRequest, now: Time) {
    r.status == Borrowed && r.dueDate.Some? && r.dueDate.value < now
  }

  /** Overdue is for good once reached: a request overdue at one instant is
      overdue at every later one, and never overdue up to its due date. */
  lemma OverdueStaysOverdue(r: BorrowRequest, t1: Time, t2: Time)
    requires t1 <= t2
    ensures IsOverdue(r, t1) ==> IsOverdue(r, t2)
    ensures r.dueDate.Some? && t2 <= r.dueDate.value ==> !IsOverdue(r, t2)
  {
  }

  /** The `daysRemaining` virtual: whole days until the due date, partial
      days rounded up (so negative once past due); null unless borrowed with
      a due date. */
  function DaysRemaining(r: BorrowRequest, now: Time): (d: Option<int>)
    ensures d.Some? <==> r.status == Borrowed && r.dueDate.Some?
    ensures d.Some? ==> (d.value - 1) * DayMs < r.dueDate.value - now <= d.value * DayMs
  {
    if r.status == Borrowed && r.dueDate.Some? then Some(CeilDiv(r.dueDate.value - now, DayMs)) else None
  }

  /** Overdue and days remaining agree: an overdue loan has no day left, a
      loan with days left is not overdue, and a loan due this very instant is
      neither overdue nor short of days. */
  lemma DaysRemainingVsOverdue(r: BorrowRequest, now: Time)
    requires r.status == Borrowed && r.dueDate.Some?
    ensures IsOverdue(r, now) ==> DaysRemaining(r, now).value <= 0
    ensures DaysRemaining(r, now).value > 0 ==> !IsOverdue(r, now)
    ensures r.dueDate.value == now ==> !IsOverdue(r, now) && DaysRemaining(r, now) == Some(0)
  {
    CeilDivPositiveIff(r.dueDate.value - now, DayMs);
    if r.dueDate.value == now {
      CeilDivUnique(0, DayMs, 0);
    }
  }

  /** The `calculateFine` method: one unit per day late, partial days rounded
      up, for a returned request that has both dates; 0 otherwise. */
  function CalculateFine(r: BorrowRequest): (f: int)
    ensures f >= 0
    ensures f > 0 <==> r.status == Returned && r.dueDate.Some? && r.returnedDate.Some?
                       && r.returnedDate.value > r.dueDate.value
    ensures f > 0 ==> (f - 1) * DayMs < r.returnedDate.value - r.dueDate.value <= f * DayMs
  {
    if r.status == Returned && r.dueDate.Some? && r.returnedDate.Some? then
      var late := r.returnedDate.value - r.dueDate.value;
      var days := CeilDiv(late, DayMs);
      CeilDivPositiveIff(late, DayMs);
      if days > 0 then days * FinePerDay else 0
    else 0
  }

  /** Worked cases: three days late costs 3, one millisecond late costs a whole
      day, returning exactly at the due date or early costs nothing. */
  lemma CalculateFineExamples(r: BorrowRequest, due: Time)
    requires r.status == Returned && r.dueDate == Some(due)
    ensures CalculateFine(r.(returnedDate := Some(due + 3 * DayMs))) == 3
    ensures CalculateFine(r.(returnedDate := Some(due + 1))) == 1
    ensures CalculateFine(r.(returnedDate := Some(due))) == 0
    ensures CalculateFine(r.(returnedDate := Some(due - 5))) == 0
  {
    CeilDivUnique(3 * DayMs, DayMs, 3);
    CeilDivUnique(1, DayMs, 1);
  }

  /** The `getOverdueRequests` query: borrowed records whose due date is
      before now. A record without a due date never matches. It selects
      exactly the records whose `isOverdue` virtual is true. */
  function OverdueRequests(requests: map<DocId, BorrowRequest>, now: Time): (ids: set<DocId>)
    ensures ids <= requests.Keys
    ensures forall id :: id in requests ==> (id in ids <==> IsOverdue(requests[id], now))
  {
    set id | id in requests && requests[id].status == Borrowed
                            && requests[id].dueDate.Some? && requests[id].dueDate.value < now
  }
}
