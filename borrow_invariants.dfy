/** What the lifecycle keeps true of the two stores across every operation,
    and what it does not: concrete runs where the availability flag and the
    requests fall out of step. */
module BorrowInvariants {
  import opened Common
  import opened EmailFormats
  import opened BookModel
  import opened BorrowRequestModel
  import opened BorrowLifecycle

  /** At most one pending, approved or borrowed request per (member, book). */
  ghost predicate OneActivePerPair(requests: Requests) {
    forall i, j :: i in requests && j in requests && i != j
      && requests[i].user == requests[j].user && requests[i].book == requests[j].book
      ==> !(IsActive(requests[i].status) && IsActive(requests[j].status))
  }

  ghost predicate AllSchemaValid(requests: Requests) {
    forall id :: id in requests ==> SchemaValid(requests[id])
  }

  /** Every record carries a request number and no two share one. */
  ghost predicate RequestNumbersUnique(requests: Requests) {
    (forall id :: id in requests ==> Present(requests[id].requestId))
    && forall i, j :: i in requests && j in requests && i != j ==> requests[i].requestId != requests[j].requestId
  }

  ghost predicate RecordsWellFormed(requests: Requests) {
    OneActivePerPair(requests) && AllSchemaValid(requests) && RequestNumbersUnique(requests)
  }

  /** The statuses in which the physical copy is out of the library. */
  predicate HoldsBook(s: Status) {
    s == Approved || s == Borrowed || s == Overdue
  }

  ghost predicate BookHeld(requests: Requests, b: BookId) {
    exists id :: id in requests && requests[id].book == b && HoldsBook(requests[id].status)
  }

  /** No catalogued book is held by two requests at once. */
  ghost predicate SingleHolder(st: Stores) {
    forall i, j :: i in st.requests && j in st.requests && i != j
      && st.requests[i].book == st.requests[j].book && st.requests[i].book in st.books
      ==> !(HoldsBook(st.requests[i].status) && HoldsBook(st.requests[j].status))
  }

  /** The availability flag says exactly whether some request holds the book,
      and at most one does. */
  ghost predicate LedgerConsistent(st: Stores) {
    SingleHolder(st)
    && forall b :: b in st.books ==> (st.books[b].available <==> !BookHeld(st.requests, b))
  }

  // ---------------------------------------------------------------------
  // Record invariants: kept by every operation, unconditionally.

  /** Adding a schema-valid record with a fresh request number, which is not
      active or is the pair's only active one, keeps the records well formed. */
  lemma AddKeepsRecords(requests: Requests, newId: DocId, r: BorrowRequest)
    requires RecordsWellFormed(requests)
    requires newId !in requests && SchemaValid(r)
    requires Present(r.requestId) && !RequestNumberTaken(requests, r.requestId.value)
    requires IsActive(r.status) ==> !HasActiveRequest(requests, r.user, r.book)
    ensures RecordsWellFormed(requests[newId := r])
  {
    var after := requests[newId := r];
    forall i, j | i in after && j in after && i != j
      && after[i].user == after[j].user && after[i].book == after[j].book
      ensures !(IsActive(after[i].status) && IsActive(after[j].status))
    {
      if i == newId && IsActive(r.status) {
        assert !(j in requests && requests[j].user == r.user && requests[j].book == r.book
                 && IsActive(requests[j].status));
      } else if j == newId && IsActive(r.status) {
        assert !(i in requests && requests[i].user == r.user && requests[i].book == r.book
                 && IsActive(requests[i].status));
      }
    }
    forall i, j | i in after && j in after && i != j ensures after[i].requestId != after[j].requestId {
      if i == newId {
        assert !(j in requests && requests[j].requestId == Some(r.requestId.value));
      } else if j == newId {
        assert !(i in requests && requests[i].requestId == Some(r.requestId.value));
      }
    }
  }

  /** Rewriting a record without touching its snapshot, without making it
      active again and without breaking a schema rule keeps the records well
      formed. */
  lemma ReplaceKeepsRecords(requests: Requests, id: DocId, r': BorrowRequest)
    requires RecordsWellFormed(requests)
    requires id in requests && SameSnapshot(requests[id], r') && SchemaValid(r')
    requires IsActive(r'.status) ==> IsActive(requests[id].status)
    ensures RecordsWellFormed(requests[id := r'])
  {
  }

  lemma SubmitKeepsRecords(st: Stores, caller: Caller, f: SubmitForm, newId: DocId, now: Time, suffix: string)
    requires RecordsWellFormed(st.requests)
    ensures RecordsWellFormed(Submit(st, caller, f, newId, now, suffix).after.requests)
  {
    var s := Submit(st, caller, f, newId, now, suffix);
    if s.result.Ok? {
      var r := SubmittedRecord(caller, f, st.books[f.bookId.value], now, suffix);
      AddKeepsRecords(st.requests, newId, r);
    }
  }

  /** A transition never makes a request active again, never moves it to
      another member or book, and never breaks a schema rule. */
  lemma TransitionKeepsRecords(st: Stores, actor: Caller, id: DocId, target: string, x: TransitionInput, now: Time)
    requires RecordsWellFormed(st.requests)
    ensures RecordsWellFormed(Transition(st, actor, id, target, x, now).after.requests)
  {
    if id in st.requests && Plan(st.requests[id], target, actor, x, now).Ok? {
      var r := st.requests[id];
      var r' := Plan(r, target, actor, x, now).value.record;
      assert Rank(r.status) < Rank(r'.status);
      assert SchemaValid(r);
      ReplaceKeepsRecords(st.requests, id, r');
    }
  }

  lemma DeleteKeepsRecords(st: Stores, caller: Caller, id: DocId)
    requires RecordsWellFormed(st.requests)
    ensures RecordsWellFormed(Delete(st, caller, id).after.requests)
  {
  }

  // ---------------------------------------------------------------------
  // The availability ledger.

  /** Adding a record that holds nothing changes no book's held status. */
  lemma AddUnheldKeepsLedger(st: Stores, newId: DocId, r: BorrowRequest)
    requires LedgerConsistent(st)
    requires newId !in st.requests && !HoldsBook(r.status)
    ensures LedgerConsistent(Stores(st.requests[newId := r], st.books))
  {
    var after := st.requests[newId := r];
    forall b | b in st.books ensures BookHeld(after, b) == BookHeld(st.requests, b) {
      if BookHeld(after, b) {
        var k :| k in after && after[k].book == b && HoldsBook(after[k].status);
        assert k != newId && k in st.requests;
      }
      if BookHeld(st.requests, b) {
        var k :| k in st.requests && st.requests[k].book == b && HoldsBook(st.requests[k].status);
        assert k in after && after[k] == st.requests[k];
      }
    }
  }

  /** Replacing one record by one for the same book that holds it or not
      just as before changes no book's held status. */
  lemma SameHoldKeepsLedger(st: Stores, id: DocId, r': BorrowRequest)
    requires LedgerConsistent(st)
    requires id in st.requests && r'.book == st.requests[id].book
    requires HoldsBook(r'.status) == HoldsBook(st.requests[id].status)
    ensures LedgerConsistent(Stores(st.requests[id := r'], st.books))
  {
    var after := st.requests[id := r'];
    forall b | b in st.books ensures BookHeld(after, b) == BookHeld(st.requests, b) {
      if BookHeld(st.requests, b) {
        var k :| k in st.requests && st.requests[k].book == b && HoldsBook(st.requests[k].status);
        assert k in after && after[k].book == b && HoldsBook(after[k].status);
      }
      if BookHeld(after, b) {
        var k :| k in after && after[k].book == b && HoldsBook(after[k].status);
        assert k in st.requests && st.requests[k].book == b && HoldsBook(st.requests[k].status);
      }
    }
  }

  /** A record for another book does not change this book's held status. */
  lemma HeldOtherBook(requests: Requests, id: DocId, r': BorrowRequest, b: BookId)
    requires id in requests ==> requests[id].book != b
    requires r'.book != b
    ensures BookHeld(requests[id := r'], b) == BookHeld(requests, b)
  {
    var after := requests[id := r'];
    if BookHeld(requests, b) {
      var k :| k in requests && requests[k].book == b && HoldsBook(requests[k].status);
      assert k in after && after[k] == requests[k];
    }
    if BookHeld(after, b) {
      var k :| k in after && after[k].book == b && HoldsBook(after[k].status);
      assert k != id && k in requests;
    }
  }

  /** Approving a pending request for an available book: it becomes the
      book's only holder and the book becomes unavailable. */
  lemma ApproveKeepsLedger(st: Stores, id: DocId, r': BorrowRequest)
    requires LedgerConsistent(st)
    requires id in st.requests && st.requests[id].status == Pending
    requires r'.status == Approved && r'.book == st.requests[id].book
    requires r'.book in st.books && st.books[r'.book].available
    ensures LedgerConsistent(Stores(st.requests[id := r'],
                                    st.books[r'.book := st.books[r'.book].(available := false)]))
  {
    var b0 := r'.book;
    var after := Stores(st.requests[id := r'], st.books[b0 := st.books[b0].(available := false)]);
    forall b | b in after.books ensures after.books[b].available <==> !BookHeld(after.requests, b) {
      if b == b0 {
        assert id in after.requests && after.requests[id].book == b && HoldsBook(after.requests[id].status);
      } else {
        HeldOtherBook(st.requests, id, r', b);
      }
    }
    forall i, j | i in after.requests && j in after.requests && i != j
      && after.requests[i].book == after.requests[j].book && after.requests[i].book in after.books
      ensures !(HoldsBook(after.requests[i].status) && HoldsBook(after.requests[j].status))
    {
      if i == id {
        assert !(j in st.requests && st.requests[j].book == b0 && HoldsBook(st.requests[j].status));
      } else if j == id {
        assert !(i in st.requests && st.requests[i].book == b0 && HoldsBook(st.requests[i].status));
      }
    }
  }

  /** Returning the holder of a book: it had no other holder, so it now has
      none and the book becomes available. */
  lemma ReturnKeepsLedger(st: Stores, id: DocId, r': BorrowRequest)
    requires LedgerConsistent(st)
    requires id in st.requests && HoldsBook(st.requests[id].status)
    requires r'.status == Returned && r'.book == st.requests[id].book && r'.book in st.books
    ensures LedgerConsistent(Stores(st.requests[id := r'],
                                    st.books[r'.book := st.books[r'.book].(available := true)]))
  {
    var b0 := r'.book;
    var after := Stores(st.requests[id := r'], st.books[b0 := st.books[b0].(available := true)]);
    forall b | b in after.books ensures after.books[b].available <==> !BookHeld(after.requests, b) {
      if b == b0 {
        forall k | k in after.requests && after.requests[k].book == b ensures !HoldsBook(after.requests[k].status) {
          if k != id {
            assert k in st.requests && st.requests[k] == after.requests[k];
          }
        }
      } else {
        HeldOtherBook(st.requests, id, r', b);
      }
    }
  }

  /** An outcome that is either no change, or one more record that holds
      nothing, keeps the ledger. */
  lemma OutcomeKeepsLedger(st: Stores, s: Step<DocId>, newId: DocId)
    requires LedgerConsistent(st)
    requires s.result.Err? ==> s.after == st
    requires s.result.Ok? ==> (newId !in st.requests && s.after.books == st.books
      && newId in s.after.requests && s.after.requests == st.requests[newId := s.after.requests[newId]]
      && s.after.requests[newId].status == Pending)
    ensures LedgerConsistent(s.after)
  {
    if s.result.Ok? {
      var r := s.after.requests[newId];
      AddUnheldKeepsLedger(st, newId, r);
      assert s.after == Stores(st.requests[newId := r], st.books);
    }
  }

  /** Submission adds a pending record, which holds nothing, and leaves the
      books alone. */
  lemma SubmitKeepsLedger(st: Stores, caller: Caller, f: SubmitForm, newId: DocId, now: Time, suffix: string)
    requires LedgerConsistent(st)
    ensures LedgerConsistent(Submit(st, caller, f, newId, now, suffix).after)
  {
    var s := Submit(st, caller, f, newId, now, suffix);
    OutcomeKeepsLedger(st, s, newId);
  }

  /** The one unguarded step: approving while the book is already out. */
  predicate ApprovesWhileOut(st: Stores, id: DocId, target: string) {
    ParseStatus(target) == Some(Approved) && id in st.requests
    && st.requests[id].book in st.books && !st.books[st.requests[id].book].available
  }

  /** Every transition keeps the ledger consistent, except an approval of a
      request whose book is already unavailable, which the controller does not
      refuse. Approve takes the free copy, return gives back the only one,
      and reject, borrow and overdue hold the book exactly as before. */
  lemma TransitionKeepsLedger(st: Stores, actor: Caller, id: DocId, target: string, x: TransitionInput, now: Time)
    requires LedgerConsistent(st)
    requires !ApprovesWhileOut(st, id, target)
    ensures LedgerConsistent(Transition(st, actor, id, target, x, now).after)
  {
    if id in st.requests && Plan(st.requests[id], target, actor, x, now).Ok? {
      var r := st.requests[id];
      var u := Plan(r, target, actor, x, now).value;
      var r' := u.record;
      if u.availability.None? {
        assert HoldsBook(r'.status) == HoldsBook(r.status) by {
          assert r'.status != Approved && r'.status != Returned;
          assert Edge(r.status, r'.status);
        }
        SameHoldKeepsLedger(st, id, r');
      } else if r.book !in st.books {
        forall b | b in st.books ensures BookHeld(st.requests[id := r'], b) == BookHeld(st.requests, b) {
          HeldOtherBook(st.requests, id, r', b);
        }
      } else if u.availability == Some(false) {
        assert r'.status == Approved && r.status == Pending;
        ApproveKeepsLedger(st, id, r');
      } else {
        assert r'.status == Returned && HoldsBook(r.status);
        ReturnKeepsLedger(st, id, r');
      }
    }
  }

  /** Deleting keeps the ledger consistent, except deleting an overdue
      request: the book stays unavailable with nothing holding it. */
  lemma DeleteKeepsLedger(st: Stores, caller: Caller, id: DocId)
    requires LedgerConsistent(st)
    requires id in st.requests ==> st.requests[id].status != Overdue
    ensures LedgerConsistent(Delete(st, caller, id).after)
  {
    var s := Delete(st, caller, id);
    if s.result.Ok? {
      var r := st.requests[id];
      var after := s.after;
      forall b | b in after.books ensures after.books[b].available <==> !BookHeld(after.requests, b) {
        if BookHeld(after.requests, b) {
          var k :| k in after.requests && after.requests[k].book == b && HoldsBook(after.requests[k].status);
          assert k in st.requests && k != id;
        }
        if b != r.book || !HoldsBook(r.status) {
          if BookHeld(st.requests, b) {
            var k :| k in st.requests && st.requests[k].book == b && HoldsBook(st.requests[k].status);
            assert k != id && k in after.requests;
          }
        }
      }
    }
  }

  // ---------------------------------------------------------------------
  // Where the code does not guarantee the ledger.

  /** Adding a record for `user` changes no other member's claim on a book. */
  lemma OtherClaimUnchanged(requests: Requests, newId: DocId, r: BorrowRequest, other: UserId, b: BookId)
    requires newId !in requests && r.user != other
    ensures HasActiveRequest(requests[newId := r], other, b) <==> HasActiveRequest(requests, other, b)
  {
    var after := requests[newId := r];
    if HasActiveRequest(after, other, b) {
      var k :| k in after && after[k].user == other && after[k].book == b && IsActive(after[k].status);
      assert k != newId && k in requests;
    }
    if HasActiveRequest(requests, other, b) {
      var k :| k in requests && requests[k].user == other && requests[k].book == b && IsActive(requests[k].status);
      assert k in after && after[k] == requests[k];
    }
  }

  /** Submission reserves nothing: after one member's request for a book,
      the book is still available and another member's own claim on it is
      as it was, so their request for the same copy passes the same checks. */
  lemma SubmitReservesNothing(st: Stores, caller: Caller, f: SubmitForm, newId: DocId, now: Time, suffix: string, other: UserId)
    requires Submit(st, caller, f, newId, now, suffix).result.Ok?
    requires other != caller.id
    ensures var after := Submit(st, caller, f, newId, now, suffix).after;
      after.books[f.bookId.value].available
      && (HasActiveRequest(after.requests, other, f.bookId.value) <==> HasActiveRequest(st.requests, other, f.bookId.value))
  {
    var s := Submit(st, caller, f, newId, now, suffix);
    OtherClaimUnchanged(st.requests, newId, s.after.requests[newId], other, f.bookId.value);
  }

  /** Approval does not re-check availability: two pending requests for one
      available book can both be approved, the second one breaking the
      ledger, and returning the first then marks the book available while
      the second is still approved. */
  lemma DoubleApprovalBreaksLedger(st: Stores, i: DocId, j: DocId, actor: Caller, x: TransitionInput, now: Time)
    requires LedgerConsistent(st)
    requires i in st.requests && j in st.requests && i != j
    requires st.requests[i].status == Pending && st.requests[j].status == Pending
    requires st.requests[i].book == st.requests[j].book && st.requests[i].book in st.books
    requires NumberOr(x.fine, 0) >= 0
    ensures var b := st.requests[i].book;
      var s1 := Transition(st, actor, i, "approved", x, now);
      var s2 := Transition(s1.after, actor, j, "approved", x, now);
      var s3 := Transition(s2.after, actor, i, "returned", x, now);
      s1.result.Ok? && s2.result.Ok? && s3.result.Ok?
      && !LedgerConsistent(s2.after)
      && s3.after.books[b].available && s3.after.requests[j].status == Approved
  {
    var b := st.requests[i].book;
    PlanTakesEveryEdge(st.requests[i], Approved, actor, x, now);
    var s1 := Transition(st, actor, i, "approved", x, now);
    assert s1.after.requests[j] == st.requests[j];
    PlanTakesEveryEdge(s1.after.requests[j], Approved, actor, x, now);
    var s2 := Transition(s1.after, actor, j, "approved", x, now);
    assert s2.after.requests[i] == s1.after.requests[i];
    assert s2.after.requests[i].status == Approved && s2.after.requests[j].status == Approved;
    assert !SingleHolder(s2.after);
    PlanTakesEveryEdge(s2.after.requests[i], Returned, actor, x, now);
    var s3 := Transition(s2.after, actor, i, "returned", x, now);
    assert s3.after.requests[j] == s2.after.requests[j];
  }

  /** Deleting an overdue request leaves its book unavailable although no
      request may hold it any more. */
  lemma DeleteOverdueBreaksLedger(st: Stores, id: DocId, admin: Caller)
    requires LedgerConsistent(st) && admin.role == Admin
    requires id in st.requests && st.requests[id].status == Overdue && st.requests[id].book in st.books
    ensures var s := Delete(st, admin, id);
      s.result.Ok? && !s.after.books[st.requests[id].book].available
      && !BookHeld(s.after.requests, st.requests[id].book)
  {
    var b := st.requests[id].book;
    var s := Delete(st, admin, id);
    assert HoldsBook(st.requests[id].status);
    forall k | k in s.after.requests && s.after.requests[k].book == b ensures !HoldsBook(s.after.requests[k].status) {
      assert k in st.requests && k != id && st.requests[k] == s.after.requests[k];
    }
  }

  /** The stronger reading that counts only approved and borrowed requests
      as holding a book cannot be an invariant: the permitted move from
      borrowed to overdue breaks it while touching no book. */
  ghost predicate LedgerByApprovedOrBorrowed(st: Stores) {
    forall b :: b in st.books ==>
      (!st.books[b].available <==>
        exists id :: id in st.requests && st.requests[id].book == b
                     && (st.requests[id].status == Approved || st.requests[id].status == Borrowed))
  }

  lemma OverdueBreaksApprovedOrBorrowedLedger(st: Stores, id: DocId, actor: Caller, x: TransitionInput, now: Time)
    requires LedgerConsistent(st)
    requires id in st.requests && st.requests[id].status == Borrowed && st.requests[id].book in st.books
    ensures var s := Transition(st, actor, id, "overdue", x, now);
      s.result.Ok? && !LedgerByApprovedOrBorrowed(s.after)
  {
    var b := st.requests[id].book;
    PlanTakesEveryEdge(st.requests[id], Overdue, actor, x, now);
    var s := Transition(st, actor, id, "overdue", x, now);
    assert !st.books[b].available by {
      assert id in st.requests && st.requests[id].book == b && HoldsBook(st.requests[id].status);
    }
    assert s.after.books[b] == st.books[b];
    forall k | k in s.after.requests && s.after.requests[k].book == b
      ensures !(s.after.requests[k].status == Approved || s.after.requests[k].status == Borrowed)
    {
      if k != id {
        assert k in st.requests && st.requests[k] == s.after.requests[k];
      }
    }
  }
}
