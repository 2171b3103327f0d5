/** The borrow-request lifecycle as functions of the two stores: submission,
    the single status-transition entry point, deletion with its compensating
    availability restore, and the read-only listings and statistics. Each
    operation returns its outcome together with the stores after it. */
module BorrowLifecycle {
  import opened Common
  import opened EmailFormats
  import opened BookModel
  import opened BorrowRequestModel

  type Requests = map<DocId, BorrowRequest>
  type Books = map<BookId, Book>

  datatype Stores = Stores(requests: Requests, books: Books)

  datatype Role = Member | Admin

  /** The already-authenticated caller: identity, display name, role. */
  datatype Caller = Caller(id: UserId, name: string, role: Role)

  /** One error per distinct failure of the controller. */
  datatype BorrowError =
    | MissingFields      // a required form field is absent or empty
    | InvalidEmail       // the member e-mail is not in the form's format
    | InvalidDuration    // the duration is outside [1, 30]
    | BookNotFound
    | BookUnavailable
    | AlreadyActive      // the caller already has a live request for the book
    | SchemaRejected     // a schema validator refused the record or update
    | RequestNotFound
    | NotPending         // approve or reject of a request not pending
    | NotApproved        // mark borrowed of a request not approved
    | NotReturnable      // return of a request not approved, borrowed or overdue
    | NotBorrowed        // mark overdue of a request not borrowed
    | ReasonRequired     // reject without a non-blank reason
    | InvalidStatus      // a target the transition switch has no case for
    | NotAuthorized
    | StorageFailure     // the store threw: duplicate key, or a deleted book dereferenced

  /** The outcome of an operation and the stores it leaves behind. */
  datatype Step<T> = Step(result: Result<T, BorrowError>, after: Stores)

  /** The submission form; `None` is an absent field, and the duration is the
      value `parseInt` produced (`None` for NaN). */
  datatype SubmitForm = SubmitForm(
    bookId: Option<string>,
    bookTitle: Option<string>,
    bookAuthor: Option<string>,
    bookCover: Option<string>,
    libraryCardId: Option<string>,
    memberName: Option<string>,
    memberEmail: Option<string>,
    memberPhone: Option<string>,
    borrowDuration: Option<int>)

  predicate RequiredPresent(f: SubmitForm) {
    Present(f.bookId) && Present(f.bookTitle) && Present(f.bookAuthor)
    && Present(f.libraryCardId) && Present(f.memberName) && Present(f.memberEmail)
  }

  /** `parseInt(borrowDuration) || 14`. */
  function EffectiveDuration(f: SubmitForm): (d: int)
    ensures f.borrowDuration.None? || f.borrowDuration == Some(0) ==> d == DefaultDuration
    ensures NumberPresent(f.borrowDuration) ==> d == f.borrowDuration.value
  {
    NumberOr(f.borrowDuration, DefaultDuration)
  }

  /** A request that still holds a claim on the title for the submit check. */
  predicate IsActive(s: Status) {
    s == Pending || s == Approved || s == Borrowed
  }

  predicate HasActiveRequest(requests: Requests, user: UserId, book: BookId) {
    exists id :: id in requests && requests[id].user == user && requests[id].book == book
                 && IsActive(requests[id].status)
  }

  predicate RequestNumberTaken(requests: Requests, number: string) {
    exists id :: id in requests && requests[id].requestId == Some(number)
  }

  /** The cover snapshot: the form's, else the book's image, else its cover
      URL, else empty. */
  function CoverSnapshot(f: SubmitForm, b: Book): string {
    if Present(f.bookCover) then f.bookCover.value
    else if Present(b.coverImage) then b.coverImage.value
    else if Present(b.coverUrl) then b.coverUrl.value
    else ""
  }

  /** The record submission creates: trimmed snapshot fields, the effective
      duration, status `pending`, a request number from the hook. */
  function SubmittedRecord(caller: Caller, f: SubmitForm, b: Book, now: Time, suffix: string): (r: BorrowRequest)
    requires RequiredPresent(f)
    ensures r.status == Pending && r.user == caller.id && r.book == f.bookId.value
    ensures r.bookTitle == Trim(f.bookTitle.value) && r.bookAuthor == Trim(f.bookAuthor.value)
    ensures r.libraryCardId == Trim(f.libraryCardId.value) && r.memberName == Trim(f.memberName.value)
    ensures r.memberEmail == Trim(f.memberEmail.value)
    ensures r.memberPhone == (if Present(f.memberPhone) then Trim(f.memberPhone.value) else "")
    ensures r.borrowDuration == EffectiveDuration(f) && r.fine == 0 && r.dueDate.None?
    ensures Present(r.requestId)
  {
    var phone := if Present(f.memberPhone) then Trim(f.memberPhone.value) else "";
    var r := NewRequest(caller.id, f.bookId.value, Trim(f.bookTitle.value), Trim(f.bookAuthor.value),
                        CoverSnapshot(f, b), Trim(f.libraryCardId.value), Trim(f.memberName.value),
                        Trim(f.memberEmail.value), phone, EffectiveDuration(f), now);
    assert !Present(r.requestId);
    var numbered := AssignRequestId(r, now, suffix);
    assert numbered == r.(requestId := Some(RequestNumber(now, suffix)));
    numbered
  }

  /** The controller's own checks of the form: fields present, e-mail in the
      member format, duration within bounds. */
  predicate FormAccepted(f: SubmitForm) {
    RequiredPresent(f) && MemberEmailOk(f.memberEmail.value)
    && MinDuration <= EffectiveDuration(f) <= MaxDuration
  }

  /** `submitBorrowRequest`. The guards run in the controller's order; any
      failure leaves both stores as they were; success adds exactly the new
      pending record under the fresh key and leaves the book untouched. */
  function Submit(st: Stores, caller: Caller, f: SubmitForm, newId: DocId, now: Time, suffix: string): (s: Step<DocId>)
    ensures s.result.Err? ==> s.after == st
    ensures s.result.Ok? ==> s.result.value == newId && newId !in st.requests
    ensures s.result.Ok? ==>
      && RequiredPresent(f) && MemberEmailOk(f.memberEmail.value)
      && MinDuration <= EffectiveDuration(f) <= MaxDuration
      && f.bookId.value in st.books && st.books[f.bookId.value].available
      && !HasActiveRequest(st.requests, caller.id, f.bookId.value)
      && s.after.books == st.books
      && s.after.requests == st.requests[newId := SubmittedRecord(caller, f, st.books[f.bookId.value], now, suffix)]
    ensures s.result == Err(MissingFields) <==> !RequiredPresent(f)
    ensures s.result == Err(InvalidEmail) <==> RequiredPresent(f) && !MemberEmailOk(f.memberEmail.value)
    ensures s.result == Err(InvalidDuration) <==>
      RequiredPresent(f) && MemberEmailOk(f.memberEmail.value) && !(MinDuration <= EffectiveDuration(f) <= MaxDuration)
    ensures s.result == Err(BookNotFound) <==> FormAccepted(f) && f.bookId.value !in st.books
    ensures s.result == Err(BookUnavailable) <==>
      FormAccepted(f) && f.bookId.value in st.books && !st.books[f.bookId.value].available
    ensures s.result == Err(AlreadyActive) <==>
      FormAccepted(f) && f.bookId.value in st.books && st.books[f.bookId.value].available
      && HasActiveRequest(st.requests, caller.id, f.bookId.value)
    ensures FormAccepted(f) && f.bookId.value in st.books && st.books[f.bookId.value].available
      && !HasActiveRequest(st.requests, caller.id, f.bookId.value)
      && SchemaValid(SubmittedRecord(caller, f, st.books[f.bookId.value], now, suffix))
      && newId !in st.requests
      && !RequestNumberTaken(st.requests, SubmittedRecord(caller, f, st.books[f.bookId.value], now, suffix).requestId.value)
      ==> s.result.Ok?
    ensures s.result.Ok? ==> s.after.requests[newId].status == Pending && s.after.requests[newId].user == caller.id
    ensures s.result.Ok? ==> (SchemaValid(s.after.requests[newId])
      && !RequestNumberTaken(st.requests, s.after.requests[newId].requestId.value))
  {
    if !RequiredPresent(f) then Step(Err(MissingFields), st)
    else if !MemberEmailOk(f.memberEmail.value) then Step(Err(InvalidEmail), st)
    else if !(MinDuration <= EffectiveDuration(f) <= MaxDuration) then Step(Err(InvalidDuration), st)
    else if f.bookId.value !in st.books then Step(Err(BookNotFound), st)
    else if !st.books[f.bookId.value].available then Step(Err(BookUnavailable), st)
    else if HasActiveRequest(st.requests, caller.id, f.bookId.value) then Step(Err(AlreadyActive), st)
    else
      var r := SubmittedRecord(caller, f, st.books[f.bookId.value], now, suffix);
      if !SchemaValid(r) then Step(Err(SchemaRejected), st)
      else if newId in st.requests || RequestNumberTaken(st.requests, r.requestId.value) then Step(Err(StorageFailure), st)
      else Step(Ok(newId), st.(requests := st.requests[newId := r]))
  }

  /** Past the controller's own checks, the schema refuses the new record
      exactly when a required field was nothing but white space. */
  lemma SubmitSchemaRejectsBlank(st: Stores, caller: Caller, f: SubmitForm, newId: DocId, now: Time, suffix: string)
    requires Submit(st, caller, f, newId, now, suffix).result != Err(MissingFields)
    requires Submit(st, caller, f, newId, now, suffix).result != Err(InvalidEmail)
    requires Submit(st, caller, f, newId, now, suffix).result != Err(InvalidDuration)
    requires f.bookId.value in st.books && st.books[f.bookId.value].available
    requires !HasActiveRequest(st.requests, caller.id, f.bookId.value)
    requires caller.id != ""
    ensures Submit(st, caller, f, newId, now, suffix).result == Err(SchemaRejected) <==>
      Trim(f.bookTitle.value) == "" || Trim(f.bookAuthor.value) == ""
      || Trim(f.libraryCardId.value) == "" || Trim(f.memberName.value) == ""
  {
    MemberEmailHasNoSpace(f.memberEmail.value);
    TrimNoSpace(f.memberEmail.value);
  }

  /** The extra, target-specific fields of a transition call. */
  datatype TransitionInput = TransitionInput(
    rejectionReason: Option<string>,
    dueDate: Option<Time>,
    returnedAt: Option<Time>,
    fine: Option<int>)

  /** The record update a transition writes, and the availability it writes
      to the book (`None`: the book is not touched). */
  datatype Update = Update(record: BorrowRequest, availability: Option<bool>)

  /** The moves the transition switch permits. The code also lets an
      approved request be returned without being marked borrowed. */
  predicate Edge(from: Status, to: Status) {
    || (from == Pending && (to == Approved || to == Rejected))
    || (from == Approved && (to == Borrowed || to == Returned))
    || (from == Borrowed && (to == Returned || to == Overdue))
    || (from == Overdue && to == Returned)
  }

  /** A rank that every move strictly raises: no move goes back or returns
      to a status once left. */
  function Rank(s: Status): nat {
    match s
    case Pending => 0
    case Approved => 1
    case Borrowed => 2
    case Overdue => 3
    case Rejected => 4
    case Returned => 4
  }

  /** The fields a transition never touches: owner, book and the snapshot. */
  predicate SameSnapshot(a: BorrowRequest, b: BorrowRequest) {
    a.user == b.user && a.book == b.book && a.bookTitle == b.bookTitle
    && a.bookAuthor == b.bookAuthor && a.bookCover == b.bookCover
    && a.libraryCardId == b.libraryCardId && a.memberName == b.memberName
    && a.memberEmail == b.memberEmail && a.memberPhone == b.memberPhone
    && a.borrowDuration == b.borrowDuration && a.submittedAt == b.submittedAt
    && a.requestId == b.requestId
  }

  /** Each field the switch writes is written only by its own case: the
      approver, approval time and due date by approve, the borrow time by
      borrowed, the return date by returned, the rejecter, rejection time and
      reason by rejected. Every other move keeps them. */
  predicate KeepsUnwritten(r: BorrowRequest, t: BorrowRequest) {
    && (t.status != Approved ==> t.approvedBy == r.approvedBy && t.approvedAt == r.approvedAt && t.dueDate == r.dueDate)
    && (t.status != Borrowed ==> t.borrowedAt == r.borrowedAt)
    && (t.status != Returned ==> t.returnedDate == r.returnedDate)
    && (t.status != Rejected ==> t.rejectedBy == r.rejectedBy && t.rejectedAt == r.rejectedAt
                                 && t.rejectionReason == r.rejectionReason)
  }

  /** The `switch (status)` of `updateBorrowRequest`: checks the current
      status for the target and builds `updateData` and `bookUpdate`. */
  function Plan(r: BorrowRequest, target: string, actor: Caller, x: TransitionInput, now: Time): (p: Result<Update, BorrowError>)
    ensures p.Ok? ==> ParseStatus(target) == Some(p.value.record.status)
    ensures p.Ok? ==> Edge(r.status, p.value.record.status)
    ensures p.Ok? ==> Rank(r.status) < Rank(p.value.record.status)
    ensures p.Ok? ==> SameSnapshot(r, p.value.record)
    ensures p.Ok? ==> (p.value.availability == Some(false) <==> p.value.record.status == Approved)
    ensures p.Ok? ==> (p.value.availability == Some(true) <==> p.value.record.status == Returned)
    ensures p.Ok? && p.value.record.status == Returned ==> p.value.record.fine == NumberOr(x.fine, 0) >= 0
    ensures p.Ok? && p.value.record.status != Returned ==> p.value.record.fine == r.fine
    ensures (ParseStatus(target).None? || ParseStatus(target) == Some(Pending)) <==> p == Err(InvalidStatus)
    ensures p.Ok? && p.value.record.status == Rejected ==>
      && Present(x.rejectionReason) && Trim(x.rejectionReason.value) != ""
      && p.value.record.rejectionReason == Trim(x.rejectionReason.value)
      && p.value.record.rejectedBy == actor.name && p.value.record.rejectedAt == Some(now)
    ensures (r.status == Pending && ParseStatus(target) == Some(Rejected)
             && (!Present(x.rejectionReason) || Trim(x.rejectionReason.value) == "")) ==> p == Err(ReasonRequired)
    ensures p.Ok? && p.value.record.status == Returned ==> p.value.record.returnedDate == Some(NumberOr(x.returnedAt, now))
    ensures p.Ok? && p.value.record.status == Borrowed ==> p.value.record.borrowedAt == Some(now)
    ensures p.Ok? ==> KeepsUnwritten(r, p.value.record)
    ensures (ParseStatus(target) == Some(Returned) && (r.status == Approved || r.status == Borrowed || r.status == Overdue)
             && NumberOr(x.fine, 0) < 0) ==> p == Err(SchemaRejected)
  {
    match ParseStatus(target)
    case None => Err(InvalidStatus)
    case Some(Pending) => Err(InvalidStatus)
    case Some(Approved) =>
      if r.status != Pending then Err(NotPending)
      else
        var due := NumberOr(x.dueDate, now + r.borrowDuration * DayMs);
        Ok(Update(r.(status := Approved, approvedBy := actor.name, approvedAt := Some(now), dueDate := Some(due)),
                  Some(false)))
    case Some(Rejected) =>
      if r.status != Pending then Err(NotPending)
      else if !Present(x.rejectionReason) || Trim(x.rejectionReason.value) == "" then Err(ReasonRequired)
      else
        Ok(Update(r.(status := Rejected, rejectedBy := actor.name, rejectedAt := Some(now),
                     rejectionReason := Trim(x.rejectionReason.value)),
                  None))
    case Some(Borrowed) =>
      if r.status != Approved then Err(NotApproved)
      else Ok(Update(r.(status := Borrowed, borrowedAt := Some(now)), None))
    case Some(Returned) =>
      if !(r.status == Approved || r.status == Borrowed || r.status == Overdue) then Err(NotReturnable)
      else
        var fine := NumberOr(x.fine, 0);
        if fine < 0 then Err(SchemaRejected)
        else
          var at := NumberOr(x.returnedAt, now);
          Ok(Update(r.(status := Returned, returnedDate := Some(at), fine := fine), Some(true)))
    case Some(Overdue) =>
      if r.status != Borrowed then Err(NotBorrowed)
      else Ok(Update(r.(status := Overdue), None))
  }

  /** Conversely, every move of the graph is taken when asked for, provided
      its extra input is acceptable: a non-blank reason for a rejection, a
      non-negative fine for a return. */
  lemma PlanTakesEveryEdge(r: BorrowRequest, t: Status, actor: Caller, x: TransitionInput, now: Time)
    requires Edge(r.status, t)
    requires t == Rejected ==> Present(x.rejectionReason) && Trim(x.rejectionReason.value) != ""
    requires t == Returned ==> NumberOr(x.fine, 0) >= 0
    ensures Plan(r, StatusName(t), actor, x, now).Ok?
    ensures Plan(r, StatusName(t), actor, x, now).value.record.status == t
  {
    ParseStatusName(t);
  }

  /** A wrong current status is refused with the error for that target. */
  lemma PlanRefusesOffGraph(r: BorrowRequest, t: Status, actor: Caller, x: TransitionInput, now: Time)
    requires t != Pending && !Edge(r.status, t)
    ensures Plan(r, StatusName(t), actor, x, now).Err?
    ensures Plan(r, StatusName(t), actor, x, now).error ==
      match t
      case Approved => NotPending
      case Rejected => NotPending
      case Borrowed => NotApproved
      case Returned => NotReturnable
      case Overdue => NotBorrowed
      case Pending => InvalidStatus
  {
    ParseStatusName(t);
  }

  /** Approval fixes the due date: the one supplied when it is truthy (a
      date of 0 is not), or the duration in whole days from now. A 14-day loan approved at T is due at T + 14 days. */
  lemma ApproveDueDate(r: BorrowRequest, actor: Caller, x: TransitionInput, now: Time)
    requires r.status == Pending
    ensures Plan(r, "approved", actor, x, now).Ok?
    ensures var u := Plan(r, "approved", actor, x, now).value;
      u.record.approvedBy == actor.name && u.record.approvedAt == Some(now)
      && u.record.dueDate == Some(if NumberPresent(x.dueDate) then x.dueDate.value else now + r.borrowDuration * DayMs)
      && (!NumberPresent(x.dueDate) && r.borrowDuration == 14 ==> u.record.dueDate == Some(now + 1209600000))
  {
  }

  /** `updateBorrowRequest`. An unknown request, a refused switch case, or a
      refused update leaves both stores unchanged. Otherwise the one record is
      rewritten; then, for approve and return, its book's availability is
      written. When that book no longer exists, dereferencing it throws after
      the record was already rewritten. */
  function Transition(st: Stores, actor: Caller, id: DocId, target: string, x: TransitionInput, now: Time): (s: Step<BorrowRequest>)
    ensures id !in st.requests ==> s == Step(Err(RequestNotFound), st)
    ensures id in st.requests && Plan(st.requests[id], target, actor, x, now).Err? ==>
      s == Step(Err(Plan(st.requests[id], target, actor, x, now).error), st)
    ensures s.after.requests.Keys == st.requests.Keys
    ensures forall k :: k in st.requests && k != id ==> s.after.requests[k] == st.requests[k]
    ensures s.after.books.Keys == st.books.Keys
    ensures forall b :: b in st.books ==>
      (id !in st.requests || b != st.requests[id].book ==> s.after.books[b] == st.books[b])
    ensures s.result.Ok? ==> id in st.requests && s.after.requests[id] == s.result.value
    ensures s.result == Err(StorageFailure) ==> id in st.requests && st.requests[id].book !in st.books
    ensures id in st.requests && Plan(st.requests[id], target, actor, x, now).Ok? ==>
      var u := Plan(st.requests[id], target, actor, x, now).value;
      var b := st.requests[id].book;
      && s.after.requests == st.requests[id := u.record]
      && s.after.books == (if u.availability.Some? && b in st.books
                           then st.books[b := st.books[b].(available := u.availability.value)] else st.books)
      && s.result == (if u.availability.None? || b in st.books then Ok(u.record) else Err(StorageFailure))
  {
    if id !in st.requests then Step(Err(RequestNotFound), st)
    else
      var r := st.requests[id];
      match Plan(r, target, actor, x, now)
      case Err(e) => Step(Err(e), st)
      case Ok(u) =>
        var requests := st.requests[id := u.record];
        if u.availability.None? then Step(Ok(u.record), Stores(requests, st.books))
        else if r.book !in st.books then Step(Err(StorageFailure), Stores(requests, st.books))
        else Step(Ok(u.record), Stores(requests, st.books[r.book := st.books[r.book].(available := u.availability.value)]))
  }

  /** The record a transition leaves behind moved along the graph, and only
      approve and return touch the book, setting it unavailable and available
      respectively. */
  lemma TransitionMovesForward(st: Stores, actor: Caller, id: DocId, target: string, x: TransitionInput, now: Time)
    requires id in st.requests
    requires Transition(st, actor, id, target, x, now).after.requests[id] != st.requests[id]
    ensures var s := Transition(st, actor, id, target, x, now);
      var before := st.requests[id];
      var after := s.after.requests[id];
      Edge(before.status, after.status) && Rank(before.status) < Rank(after.status)
      && SameSnapshot(before, after)
      && (before.book in st.books ==>
            s.after.books[before.book].available ==
              (if after.status == Approved then false
               else if after.status == Returned then true
               else st.books[before.book].available))
  {
  }

  /** `deleteBorrowRequest`. A member may delete only their own request and
      only while it is pending; an administrator may delete any. Deleting an
      approved or borrowed request makes its book available again; any other
      status, overdue included, leaves the book as it is. */
  function Delete(st: Stores, caller: Caller, id: DocId): (s: Step<()>)
    ensures id !in st.requests ==> s == Step(Err(RequestNotFound), st)
    ensures s.result == Err(NotAuthorized) <==>
      id in st.requests && caller.role != Admin
      && (st.requests[id].user != caller.id || st.requests[id].status != Pending)
    ensures s.result.Err? ==> s.after == st
    ensures s.result.Ok? <==>
      id in st.requests && (caller.role == Admin || (st.requests[id].user == caller.id && st.requests[id].status == Pending))
    ensures s.result.Ok? ==> id in st.requests && s.after.requests == st.requests - {id}
    ensures s.after.books.Keys == st.books.Keys
    ensures s.result.Ok? ==> forall b :: b in st.books ==>
      s.after.books[b] ==
        (if b == st.requests[id].book && (st.requests[id].status == Approved || st.requests[id].status == Borrowed)
         then st.books[b].(available := true) else st.books[b])
  {
    if id !in st.requests then Step(Err(RequestNotFound), st)
    else
      var r := st.requests[id];
      if caller.role != Admin && (r.user != caller.id || r.status != Pending) then Step(Err(NotAuthorized), st)
      else
        var books := if (r.status == Approved || r.status == Borrowed) && r.book in st.books
                     then st.books[r.book := st.books[r.book].(available := true)]
                     else st.books;
        Step(Ok(()), Stores(st.requests - {id}, books))
  }

  /** `status && status !== 'all'`: whether the listing filters by status. */
  predicate FiltersStatus(status: Option<string>) {
    Present(status) && status.value != "all"
  }

  /** `getBorrowRequests` without its text search: a member sees only their
      own requests, an administrator all; a status filter other than `all`
      keeps the requests whose status has that name (none, for a name that is
      not a status). */
  function ListRequests(requests: Requests, caller: Caller, status: Option<string>): (ids: set<DocId>)
    ensures ids <= requests.Keys
    ensures caller.role != Admin ==> forall id :: id in ids ==> requests[id].user == caller.id
    ensures FiltersStatus(status) ==> forall id :: id in ids ==> StatusName(requests[id].status) == status.value
    ensures FiltersStatus(status) && ParseStatus(status.value).None? ==> ids == {}
    ensures forall id :: (id in requests && (caller.role == Admin || requests[id].user == caller.id)
                          && (!FiltersStatus(status) || StatusName(requests[id].status) == status.value))
                         ==> id in ids
  {
    set id | id in requests && (caller.role == Admin || requests[id].user == caller.id)
                            && (!FiltersStatus(status) || StatusName(requests[id].status) == status.value)
  }

  /** `getMyBorrowRequests`: exactly the caller's own requests. */
  function MyRequests(requests: Requests, caller: Caller): (ids: set<DocId>)
    ensures forall id :: id in ids <==> id in requests && requests[id].user == caller.id
  {
    set id | id in requests && requests[id].user == caller.id
  }

  /** `getUserBorrowRequests`: a member may list only their own requests. */
  function UserRequests(requests: Requests, caller: Caller, user: UserId): (r: Result<set<DocId>, BorrowError>)
    ensures r.Err? <==> caller.role != Admin && caller.id != user
    ensures r.Ok? ==> forall id :: id in r.value <==> id in requests && requests[id].user == user
  {
    if caller.role != Admin && caller.id != user then Err(NotAuthorized)
    else Ok(set id | id in requests && requests[id].user == user)
  }

  /** The three listings agree. A member's unfiltered listing is their own
      requests, and so is the per-member listing of themselves; with a status
      filter a member sees their own requests of that status. An
      administrator's per-member listing of anyone is that member's own
      listing, and their unfiltered listing is the whole store. */
  lemma ListingsAgree(requests: Requests, caller: Caller, status: Option<string>, user: UserId)
    ensures caller.role != Admin ==> ListRequests(requests, caller, None) == MyRequests(requests, caller)
    ensures UserRequests(requests, caller, caller.id) == Ok(MyRequests(requests, caller))
    ensures caller.role != Admin && FiltersStatus(status) && ParseStatus(status.value).Some? ==>
      ListRequests(requests, caller, status) == MyRequests(requests, caller) * WithStatus(requests, ParseStatus(status.value).value)
    ensures caller.role == Admin ==>
      UserRequests(requests, caller, user) == Ok(MyRequests(requests, caller.(id := user)))
    ensures caller.role == Admin ==> ListRequests(requests, caller, None) == requests.Keys
  {
    if caller.role != Admin && FiltersStatus(status) && ParseStatus(status.value).Some? {
      var t := ParseStatus(status.value).value;
      forall id | id in requests ensures (StatusName(requests[id].status) == status.value <==> requests[id].status == t) {
        ParseStatusName(requests[id].status);
      }
    }
  }

  datatype BorrowStats = BorrowStats(
    total: nat, pending: nat, approved: nat, borrowed: nat,
    returned: nat, rejected: nat, overdue: nat)

  function WithStatus(requests: Requests, s: Status): (ids: set<DocId>)
    ensures forall id :: id in ids <==> id in requests && requests[id].status == s
  {
    set id | id in requests && requests[id].status == s
  }

  /** `getBorrowStats`, administrators only. The overdue figure is the
      due-date query, not the persisted `overdue` status, which no figure
      counts. */
  function Stats(requests: Requests, caller: Caller, now: Time): (r: Result<BorrowStats, BorrowError>)
    ensures r.Err? <==> caller.role != Admin
    ensures r.Ok? ==> r.value.total == |requests|
    ensures r.Ok? ==> r.value.pending == |WithStatus(requests, Pending)| && r.value.approved == |WithStatus(requests, Approved)|
    ensures r.Ok? ==> r.value.borrowed == |WithStatus(requests, Borrowed)| && r.value.returned == |WithStatus(requests, Returned)|
    ensures r.Ok? ==> r.value.rejected == |WithStatus(requests, Rejected)|
    ensures r.Ok? ==> r.value.overdue == |OverdueRequests(requests, now)|
    ensures r.Ok? ==> r.value.overdue <= r.value.borrowed
    ensures r.Ok? ==> r.value.pending + r.value.approved + r.value.borrowed + r.value.returned
                      + r.value.rejected + |WithStatus(requests, Overdue)| == r.value.total
  {
    if caller.role != Admin then Err(NotAuthorized)
    else
      StatusesPartition(requests);
      assert OverdueRequests(requests, now) <= WithStatus(requests, Borrowed);
      SubsetCard(OverdueRequests(requests, now), WithStatus(requests, Borrowed));
      Ok(BorrowStats(|requests|, |WithStatus(requests, Pending)|, |WithStatus(requests, Approved)|,
                     |WithStatus(requests, Borrowed)|, |WithStatus(requests, Returned)|,
                     |WithStatus(requests, Rejected)|, |OverdueRequests(requests, now)|))
  }

  /** The six status counts add up to the number of requests. */
  lemma StatusesPartition(requests: Requests)
    ensures |WithStatus(requests, Pending)| + |WithStatus(requests, Approved)| + |WithStatus(requests, Borrowed)|
            + |WithStatus(requests, Returned)| + |WithStatus(requests, Rejected)| + |WithStatus(requests, Overdue)|
            == |requests|
  {
    var p, a, b := WithStatus(requests, Pending), WithStatus(requests, Approved), WithStatus(requests, Borrowed);
    var t, j, o := WithStatus(requests, Returned), WithStatus(requests, Rejected), WithStatus(requests, Overdue);
    DisjointCard(p, a);
    DisjointCard(p + a, b);
    DisjointCard(p + a + b, t);
    DisjointCard(p + a + b + t, j);
    DisjointCard(p + a + b + t + j, o);
    StatusesCover(requests);
    assert |requests.Keys| == |requests|;
  }

  lemma StatusesCover(requests: Requests)
    ensures WithStatus(requests, Pending) + WithStatus(requests, Approved) + WithStatus(requests, Borrowed)
            + WithStatus(requests, Returned) + WithStatus(requests, Rejected) + WithStatus(requests, Overdue)
            == requests.Keys
  {
    var p, a, b := WithStatus(requests, Pending), WithStatus(requests, Approved), WithStatus(requests, Borrowed);
    var t, j, o := WithStatus(requests, Returned), WithStatus(requests, Rejected), WithStatus(requests, Overdue);
    var u := p + a + b + t + j + o;
    forall id | id in requests ensures id in u {
      assert id in WithStatus(requests, requests[id].status);
    }
    assert u <= requests.Keys by {
      forall id | id in u ensures id in requests {
        assert id in p || id in a || id in b || id in t || id in j || id in o;
      }
    }
  }

  lemma DisjointCard<T>(x: set<T>, y: set<T>)
    requires x !! y
    ensures |x + y| == |x| + |y|
  {
  }

  lemma SubsetCard<T>(x: set<T>, y: set<T>)
    requires x <= y
    ensures |x| <= |y|
  {
    assert y == x + (y - x);
    DisjointCard(x, y - x);
  }
}
