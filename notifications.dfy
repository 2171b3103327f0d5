/** Per-member notifications with a read flag. The store is kept in the
    order the notifications were created; listing returns a member's newest
    ones first, and the two marking operations set read flags in place. */
module Notifications {
  import opened Common
  import opened BookModel
  import opened BorrowRequestModel

  /** The schema's `type` enumeration. */
  datatype Kind = BorrowApproved | BorrowRejected | DueReminder | NewBook | ReturnReminder | General

  function KindName(k: Kind): string {
    match k
    case BorrowApproved => "borrow_approved"
    case BorrowRejected => "borrow_rejected"
    case DueReminder => "due_reminder"
    case NewBook => "new_book"
    case ReturnReminder => "return_reminder"
    case General => "general"
  }

  /** The enum validator: exactly the six names are accepted. */
  function ParseKind(name: string): (r: Option<Kind>)
    ensures r.Some? ==> KindName(r.value) == name
    ensures r.None? ==> forall k: Kind :: KindName(k) != name
  {
    if name == "borrow_approved" then Some(BorrowApproved)
    else if name == "borrow_rejected" then Some(BorrowRejected)
    else if name == "due_reminder" then Some(DueReminder)
    else if name == "new_book" then Some(NewBook)
    else if name == "return_reminder" then Some(ReturnReminder)
    else if name == "general" then Some(General)
    else None
  }

  type NoteId = string

  datatype Notification = Notification(
    id: NoteId,
    user: UserId,
    title: string,
    message: string,
    kind: Kind,
    relatedBook: Option<BookId>,
    isRead: bool,
    actionUrl: string,
    createdAt: Time)

  datatype NotificationError =
    | NotificationNotFound  // no notification of the caller under the id
    | ValidationFailed      // a required field missing or an unknown type
    | StorageFailure        // the store threw (an id collision)

  /** The most notifications one listing returns. */
  const ListLimit: nat := 50

  /** No two notifications share an id. */
  predicate IdsUnique(s: seq<Notification>) {
    forall i, j :: 0 <= i < |s| && 0 <= j < |s| && i != j ==> s[i].id != s[j].id
  }

  /** Creation times never decrease along the store. */
  predicate Chronological(s: seq<Notification>) {
    forall i, j :: 0 <= i < j < |s| ==> s[i].createdAt <= s[j].createdAt
  }

  predicate NewestFirst(r: seq<Notification>) {
    forall i, j :: 0 <= i < j < |r| ==> r[i].createdAt >= r[j].createdAt
  }

  /** The member's notifications in store order. */
  function Mine(s: seq<Notification>, user: UserId): (r: seq<Notification>)
    ensures |r| <= |s|
    ensures forall n :: n in r ==> n in s && n.user == user
    ensures forall n :: n in s && n.user == user ==> n in r
  {
    if s == [] then []
    else if s[|s| - 1].user == user then Mine(s[..|s| - 1], user) + [s[|s| - 1]]
    else Mine(s[..|s| - 1], user)
  }

  function Reverse(s: seq<Notification>): (r: seq<Notification>)
    ensures |r| == |s|
    ensures forall k :: 0 <= k < |s| ==> r[k] == s[|s| - 1 - k]
  {
    if s == [] then [] else [s[|s| - 1]] + Reverse(s[..|s| - 1])
  }

  function Min(a: nat, b: nat): nat {
    if a <= b then a else b
  }

  /** `getNotifications`: walking the store from its newest end, the first
      `limit` notifications of the member. */
  function Latest(s: seq<Notification>, user: UserId, limit: nat): (r: seq<Notification>)
    ensures |r| <= limit
    decreases |s|
  {
    if s == [] || limit == 0 then []
    else if s[|s| - 1].user == user then [s[|s| - 1]] + Latest(s[..|s| - 1], user, limit - 1)
    else Latest(s[..|s| - 1], user, limit)
  }

  /** `getNotifications` itself: the listing at the controller's limit of
      fifty, the member's newest notifications and no others. */
  function GetNotifications(s: seq<Notification>, user: UserId): (r: seq<Notification>)
    ensures |r| <= ListLimit && |r| == Min(ListLimit, |Mine(s, user)|)
    ensures r == Reverse(Mine(s, user))[..Min(ListLimit, |Mine(s, user)|)]
    ensures forall n :: n in r ==> n in s && n.user == user
    ensures Chronological(s) ==> NewestFirst(r)
  {
    LatestMembers(s, user, ListLimit);
    LatestIsNewestMine(s, user, ListLimit);
    if Chronological(s) then LatestSorted(s, user, ListLimit); Latest(s, user, ListLimit)
    else Latest(s, user, ListLimit)
  }

  /** The listing holds only the member's notifications, taken from the
      store, and as many as the limit allows. */
  lemma {:induction false} LatestMembers(s: seq<Notification>, user: UserId, limit: nat)
    ensures |Latest(s, user, limit)| == Min(limit, |Mine(s, user)|)
    ensures forall n :: n in Latest(s, user, limit) ==> n in s && n.user == user
    decreases |s|
  {
    if s != [] && limit != 0 {
      var init := s[..|s| - 1];
      LatestMembers(init, user, if s[|s| - 1].user == user then limit - 1 else limit);
      forall n | n in init ensures n in s {
        var k :| 0 <= k < |init| && init[k] == n;
        assert s[k] == n;
      }
    }
  }

  /** The listing is the member's notifications in reverse store order, cut
      after `limit`: the most recent ones and no others. */
  lemma {:induction false} LatestIsNewestMine(s: seq<Notification>, user: UserId, limit: nat)
    ensures Latest(s, user, limit) == Reverse(Mine(s, user))[..Min(limit, |Mine(s, user)|)]
    decreases |s|
  {
    if s == [] || limit == 0 {
    } else {
      var init, last := s[..|s| - 1], s[|s| - 1];
      LatestIsNewestMine(init, user, if last.user == user then limit - 1 else limit);
      if last.user == user {
        var m := Mine(init, user);
        assert Mine(s, user) == m + [last];
        assert Reverse(m + [last]) == [last] + Reverse(m);
        assert Reverse(m + [last])[..Min(limit, |m| + 1)] == [last] + Reverse(m)[..Min(limit - 1, |m|)];
      }
    }
  }

  /** Over a chronological store the listing is newest first. */
  lemma {:induction false} LatestSorted(s: seq<Notification>, user: UserId, limit: nat)
    requires Chronological(s)
    ensures NewestFirst(Latest(s, user, limit))
    decreases |s|
  {
    if s != [] && limit != 0 {
      var init, last := s[..|s| - 1], s[|s| - 1];
      var l := if last.user == user then limit - 1 else limit;
      assert Chronological(init) by {
        forall i, j | 0 <= i < j < |init| ensures init[i].createdAt <= init[j].createdAt {
          assert init[i] == s[i] && init[j] == s[j];
        }
      }
      LatestSorted(init, user, l);
      if last.user == user {
        var rest := Latest(init, user, l);
        LatestMembers(init, user, l);
        forall n | n in rest ensures n.createdAt <= last.createdAt {
          var k :| 0 <= k < |init| && init[k] == n;
          assert s[k] == n;
        }
        NewestFirstCons(last, rest);
      }
    }
  }

  lemma NewestFirstCons(n: Notification, r: seq<Notification>)
    requires NewestFirst(r)
    requires forall m :: m in r ==> m.createdAt <= n.createdAt
    ensures NewestFirst([n] + r)
  {
    var t := [n] + r;
    forall i, j | 0 <= i < j < |t| ensures t[i].createdAt >= t[j].createdAt {
      assert t[j] == r[j - 1];
      if i > 0 {
        assert t[i] == r[i - 1];
      }
    }
  }

  predicate UnreadFor(n: Notification, user: UserId) {
    n.user == user && !n.isRead
  }

  /** `getUnreadCount`: the member's notifications not yet read. */
  function UnreadCount(s: seq<Notification>, user: UserId): (c: nat)
    ensures c <= |s|
  {
    if s == [] then 0
    else (if UnreadFor(s[0], user) then 1 else 0) + UnreadCount(s[1..], user)
  }

  /** The count is zero exactly when every one of the member's
      notifications is read. */
  lemma {:induction false} UnreadCountZeroIff(s: seq<Notification>, user: UserId)
    ensures UnreadCount(s, user) == 0 <==> forall k :: 0 <= k < |s| ==> !UnreadFor(s[k], user)
  {
    if s != [] {
      UnreadCountZeroIff(s[1..], user);
      if UnreadCount(s, user) == 0 {
        forall k | 0 <= k < |s| ensures !UnreadFor(s[k], user) {
          if k > 0 {
            assert s[k] == s[1..][k - 1];
          }
        }
      } else if !UnreadFor(s[0], user) {
        var k :| 0 <= k < |s[1..]| && UnreadFor(s[1..][k], user);
        assert s[k + 1] == s[1..][k];
      }
    }
  }

  /** Two stores of one length whose unread notifications of the member
      line up position by position: the second has no more of them, and as
      many when they line up both ways. */
  lemma {:induction false} UnreadCountPointwise(s: seq<Notification>, t: seq<Notification>, user: UserId)
    requires |s| == |t|
    requires forall k :: 0 <= k < |t| && UnreadFor(t[k], user) ==> UnreadFor(s[k], user)
    ensures UnreadCount(t, user) <= UnreadCount(s, user)
    ensures (forall k :: 0 <= k < |s| && UnreadFor(s[k], user) ==> UnreadFor(t[k], user))
            ==> UnreadCount(t, user) == UnreadCount(s, user)
  {
    if s != [] {
      forall k | 0 <= k < |t[1..]| && UnreadFor(t[1..][k], user) ensures UnreadFor(s[1..][k], user) {
        assert t[1..][k] == t[k + 1] && s[1..][k] == s[k + 1];
      }
      UnreadCountPointwise(s[1..], t[1..], user);
      if forall k :: 0 <= k < |s| && UnreadFor(s[k], user) ==> UnreadFor(t[k], user) {
        forall k | 0 <= k < |s[1..]| && UnreadFor(s[1..][k], user) ensures UnreadFor(t[1..][k], user) {
          assert t[1..][k] == t[k + 1] && s[1..][k] == s[k + 1];
        }
      }
    }
  }

  /** Whether the caller has a notification under `id` (`findOneAndUpdate`
      filters on both the id and the owner). */
  predicate Owned(s: seq<Notification>, caller: UserId, id: NoteId) {
    exists k :: 0 <= k < |s| && s[k].id == id && s[k].user == caller
  }

  /** `markAsRead`: the caller's notification under `id` becomes read;
      nothing else changes. */
  function MarkRead(s: seq<Notification>, caller: UserId, id: NoteId): (r: seq<Notification>)
    ensures |r| == |s|
    ensures forall k :: 0 <= k < |s| && (s[k].id != id || s[k].user != caller) ==> r[k] == s[k]
    ensures forall k :: 0 <= k < |s| && s[k].id == id && s[k].user == caller ==> r[k] == s[k].(isRead := true)
  {
    seq(|s|, k requires 0 <= k < |s| => if s[k].id == id && s[k].user == caller then s[k].(isRead := true) else s[k])
  }

  /** `markAllAsRead`: every notification of the caller becomes read;
      nothing else changes. */
  function MarkAll(s: seq<Notification>, caller: UserId): (r: seq<Notification>)
    ensures |r| == |s|
    ensures forall k :: 0 <= k < |s| && s[k].user != caller ==> r[k] == s[k]
    ensures forall k :: 0 <= k < |s| && s[k].user == caller ==> r[k] == s[k].(isRead := true)
  {
    seq(|s|, k requires 0 <= k < |s| => if s[k].user == caller then s[k].(isRead := true) else s[k])
  }

  /** Marking the same notification again changes nothing more. */
  lemma MarkReadIdempotent(s: seq<Notification>, caller: UserId, id: NoteId)
    ensures MarkRead(MarkRead(s, caller, id), caller, id) == MarkRead(s, caller, id)
  {
  }

  /** Marking one notification: nothing happens for an id the caller does
      not own; otherwise the caller's unread count drops by one if it was
      unread and stays if it was read, and nobody else's count moves. */
  lemma MarkReadCounts(s: seq<Notification>, caller: UserId, id: NoteId, other: UserId)
    requires IdsUnique(s)
    ensures !Owned(s, caller, id) ==> MarkRead(s, caller, id) == s
    ensures other != caller ==> UnreadCount(MarkRead(s, caller, id), other) == UnreadCount(s, other)
    ensures UnreadCount(MarkRead(s, caller, id), caller) <= UnreadCount(s, caller)
    ensures forall k :: 0 <= k < |s| && s[k].id == id && s[k].user == caller ==> MarkRead(s, caller, id)[k].isRead
  {
    var t := MarkRead(s, caller, id);
    UnreadCountPointwise(s, t, other);
    UnreadCountPointwise(s, t, caller);
  }

  /** After marking all, the caller has nothing unread, and every other
      member's notifications and count are as they were. */
  lemma MarkAllClears(s: seq<Notification>, caller: UserId, other: UserId)
    ensures UnreadCount(MarkAll(s, caller), caller) == 0
    ensures other != caller ==> UnreadCount(MarkAll(s, caller), other) == UnreadCount(s, other)
    ensures other != caller ==> Mine(MarkAll(s, caller), other) == Mine(s, other)
  {
    var t := MarkAll(s, caller);
    UnreadCountZeroIff(t, caller);
    UnreadCountPointwise(s, t, other);
    if other != caller {
      MineUnchanged(s, t, other);
    }
  }

  /** Two stores that agree on every notification of a member list the same
      notifications for that member. */
  lemma {:induction false} MineUnchanged(s: seq<Notification>, t: seq<Notification>, user: UserId)
    requires |s| == |t|
    requires forall k :: 0 <= k < |s| ==> (s[k].user == user || t[k].user == user ==> s[k] == t[k])
    ensures Mine(t, user) == Mine(s, user)
    decreases |s|
  {
    if s != [] {
      MineUnchanged(s[..|s| - 1], t[..|t| - 1], user);
    }
  }

  /** Marking keeps the ids, so a store with unique ids keeps them unique. */
  lemma SameIdsUnique(s: seq<Notification>, t: seq<Notification>)
    requires IdsUnique(s) && |s| == |t|
    requires forall k :: 0 <= k < |s| ==> t[k].id == s[k].id
    ensures IdsUnique(t)
  {
  }

  /** The schema's checks on a new notification: owner, title and message
      required (an empty string fails `required`), type in the enumeration. */
  function Build(id: NoteId, user: Option<UserId>, title: Option<string>, message: Option<string>,
                 kind: string, relatedBook: Option<BookId>, actionUrl: string, now: Time)
    : (r: Result<Notification, NotificationError>)
    ensures r.Ok? <==> Present(user) && Present(title) && Present(message) && ParseKind(kind).Some?
    ensures r.Err? ==> r.error == ValidationFailed
    ensures r.Ok? ==> (r.value.id == id && r.value.user == user.value && r.value.title == title.value
                       && r.value.message == message.value && KindName(r.value.kind) == kind
                       && r.value.relatedBook == relatedBook && r.value.actionUrl == actionUrl
                       && !r.value.isRead && r.value.createdAt == now)
  {
    if !Present(user) || !Present(title) || !Present(message) then Err(ValidationFailed)
    else match ParseKind(kind)
      case None => Err(ValidationFailed)
      case Some(k) => Ok(Notification(id, user.value, title.value, message.value, k, relatedBook, false, actionUrl, now))
  }

  /** `Notification.create`: the built notification appended to the store, or
      the store unchanged; a taken id is the unique-index failure. */
  function Create(s: seq<Notification>, built: Result<Notification, NotificationError>)
    : (r: (Result<Notification, NotificationError>, seq<Notification>))
    ensures r.0.Ok? ==> built.Ok? && r.0 == built && r.1 == s + [built.value]
    ensures r.0.Err? ==> r.1 == s
    ensures built.Ok? && (forall k :: 0 <= k < |s| ==> s[k].id != built.value.id) ==> r.0.Ok?
    ensures built.Err? ==> r.0 == built
  {
    if built.Err? then (built, s)
    else if exists k :: 0 <= k < |s| && s[k].id == built.value.id then (Err(StorageFailure), s)
    else (built, s + [built.value])
  }

  /** Creation keeps the ids unique, and keeps the store chronological when
      the clock has not gone back since the last creation. */
  lemma CreateKeepsInvariants(s: seq<Notification>, built: Result<Notification, NotificationError>)
    requires IdsUnique(s)
    ensures IdsUnique(Create(s, built).1)
    ensures Chronological(s) && built.Ok? && (s != [] ==> s[|s| - 1].createdAt <= built.value.createdAt)
            ==> Chronological(Create(s, built).1)
  {
  }

  class NotificationStore {
    var notes: seq<Notification>

    constructor(notes0: seq<Notification>)
      requires IdsUnique(notes0)
      ensures notes == notes0 && Valid()
    {
      notes := notes0;
    }

    ghost predicate Valid()
      reads this
    {
      IdsUnique(notes)
    }

    /** `markAsRead`: not found, and nothing changed, unless the caller owns
        a notification under `id`. */
    method MarkAsRead(caller: UserId, id: NoteId) returns (r: Result<Notification, NotificationError>)
      requires Valid()
      modifies this
      ensures Valid()
      ensures r.Err? <==> !Owned(old(notes), caller, id)
      ensures r.Err? ==> r.error == NotificationNotFound
      ensures notes == MarkRead(old(notes), caller, id)
      ensures r.Ok? ==> r.value in notes && r.value.id == id && r.value.user == caller && r.value.isRead
    {
      if !exists k :: 0 <= k < |notes| && notes[k].id == id && notes[k].user == caller {
        assert MarkRead(notes, caller, id) == notes;
        return Err(NotificationNotFound);
      }
      var k :| 0 <= k < |notes| && notes[k].id == id && notes[k].user == caller;
      ghost var was := notes;
      var n := notes[k].(isRead := true);
      notes := notes[k := n];
      assert notes == MarkRead(was, caller, id);
      SameIdsUnique(was, notes);
      return Ok(n);
    }

    /** `markAllAsRead`: the update walks the caller's unread notifications
        and sets each one read. */
    method MarkAllAsRead(caller: UserId)
      requires Valid()
      modifies this
      ensures Valid()
      ensures notes == MarkAll(old(notes), caller)
    {
      ghost var was := notes;
      var i := 0;
      while i < |notes|
        invariant 0 <= i <= |notes| == |was|
        invariant forall k :: 0 <= k < i ==> notes[k] == MarkAll(was, caller)[k]
        invariant forall k :: i <= k < |notes| ==> notes[k] == was[k]
      {
        if notes[i].user == caller && !notes[i].isRead {
          notes := notes[i := notes[i].(isRead := true)];
        }
        i := i + 1;
      }
      assert notes == MarkAll(was, caller);
      SameIdsUnique(was, notes);
    }

    /** `createNotification`: the body's type falls back to `general` when
        absent or empty, the link to the empty string; any failure is
        reported and nothing is stored. */
    method CreateNotification(userId: Option<UserId>, title: Option<string>, message: Option<string>,
                              kind: Option<string>, relatedBook: Option<BookId>, actionUrl: Option<string>,
                              newId: NoteId, now: Time)
      returns (r: Result<Notification, NotificationError>)
      requires Valid()
      modifies this
      ensures Valid()
      ensures (r, notes) == Create(old(notes), Build(newId, userId, title, message, StringOr(kind, "general"),
                                                     relatedBook, StringOr(actionUrl, ""), now))
      ensures r.Ok? ==> !r.value.isRead && r.value.actionUrl == StringOr(actionUrl, "")
      ensures r.Ok? && !Present(kind) ==> r.value.kind == General
    {
      var built := Build(newId, userId, title, message, StringOr(kind, "general"),
                         relatedBook, StringOr(actionUrl, ""), now);
      CreateKeepsInvariants(notes, built);
      var outcome := Create(notes, built);
      r, notes := outcome.0, outcome.1;
    }

    /** `createNotificationForUser`: the parameters default only when left
        out (so an explicit empty type fails the enumeration), and a failure
        is swallowed: the store either gains the notification or is
        unchanged, and no error reaches the caller. */
    method CreateNotificationForUser(userId: Option<UserId>, title: Option<string>, message: Option<string>,
                                     kind: Option<string>, relatedBook: Option<BookId>, actionUrl: Option<string>,
                                     newId: NoteId, now: Time)
      requires Valid()
      modifies this
      ensures Valid()
      ensures notes == Create(old(notes), Build(newId, userId, title, message,
                                                if kind.Some? then kind.value else "general", relatedBook,
                                                if actionUrl.Some? then actionUrl.value else "", now)).1
      ensures notes == old(notes) || (|notes| == |old(notes)| + 1 && notes[..|old(notes)|] == old(notes))
    {
      var built := Build(newId, userId, title, message, if kind.Some? then kind.value else "general",
                         relatedBook, if actionUrl.Some? then actionUrl.value else "", now);
      CreateKeepsInvariants(notes, built);
      var outcome := Create(notes, built);
      notes := outcome.1;
    }
  }
}
