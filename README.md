# Library backend: borrow lifecycle, accounts, favourites and notifications

This project is a Dafny model of the request-handling core of a library
management backend (Express controllers over Mongoose models). It covers:

- **Borrow requests.** A member submits a request for a catalogued book. An
  administrator drives it through `pending → approved → borrowed →
  returned/overdue`, or rejects it. Deleting a request may put the book back
  on the shelf. Listings and statistics filter the request store.
- **The book record.** Its defaults, the `available` flag the borrow
  lifecycle writes, and the pre-save hook that keeps the duplicated year and
  cover fields in step.
- **Accounts.** Registration, one-time-code verification, login, password
  reset, code re-sending and profile updates, over a store of accounts with
  unique lower-case e-mails.
- **Favourites.** A set of (member, book) pairs with add, remove, check and
  list.
- **Notifications.** A per-member table with read flags: the listing of the
  newest fifty, the unread count, marking one or all as read, and creation.

The stores are Dafny maps or sequences. Each controller whose handlers update
records in place is a `class` whose methods reassign those fields. Every
handler method is tied by its `ensures` to a specification function, or
states its outcome and new store outright. Queries and the schema rules are
functions, and the properties are lemmas about those functions.

Modelling choices:

- Times are integer milliseconds.
- Random values and generated ids are parameters: the code draw, the
  request-number suffix and new document ids.
- The mail transport's verdict is a boolean parameter, and the password
  comparison is a function parameter.
- JavaScript truthiness (`x || d`, `x ? a : b`, `!x`) is written out: an
  absent or empty string and an absent, unparsable or zero number are falsy.

Files:

- `common.dfy`: options, results, truthiness, trimming, ceiling division,
  decimal rendering.
- `emails.dfy`: the two e-mail patterns and lower-casing.
- `book.dfy`: the book record.
- `borrow_request.dfy`: the borrow-request schema, its hook, virtuals and
  fine.
- `borrow_lifecycle.dfy`: the specification functions for submit, transition
  and delete, and the queries.
- `borrow_invariants.dfy`: what those operations keep, and where they fail
  to.
- `borrow_controller.dfy`: the imperative borrow handlers.
- `user.dfy` and `auth_controller.dfy`: accounts.
- `favorites.dfy`: favourites.
- `notifications.dfy`: notifications.

## Model

| member | source | states |
|---|---|---|
| Common.TrimIdempotent | controllers/borrowController.js:75-81 | trimming a snapshot field twice gives what trimming once gives |
| Common.TrimEmptyIff | controllers/borrowController.js:200 | `s.trim() === ''` holds exactly when every character of `s` is white space |
| Common.TrimNoSpace | controllers/borrowController.js:80 | a string without white space is its own trim |
| Common.CeilDiv | models/BorrowRequest.js:138 | `Math.ceil(a / d)` for a positive divisor is the least `k` with `k * d >= a` |
| Common.CeilDivUnique | models/BorrowRequest.js:161 | the least-multiple characterisation determines the rounded-up day count |
| Common.CeilDivPositiveIff | models/BorrowRequest.js:161-165 | the rounded-up day count is positive exactly when the time difference is positive |
| Common.NatToDecimal | models/User.js:58 | `toString()` of a non-negative integer: decimal digits with no leading zero |
| Common.DecimalRoundTrip | models/User.js:58 | reading a rendered number back gives the number |
| Common.DecimalWidth | models/User.js:58 | a number in [10^(w-1), 10^w) renders with exactly w digits |
| EmailFormats.MemberEmailHasNoSpace | controllers/borrowController.js:27-28 | an address the borrow form's pattern accepts contains no white space, so the later trim leaves it unchanged |
| EmailFormats.ToLower | models/User.js:13 | the `lowercase` setter, restricted to ASCII: each capital `A`-`Z` becomes its lower-case letter, every other character is kept, and so is the length |
| EmailFormats.ToLowerIsLowerCase | models/User.js:13 | the setter's result has no upper-case letter, and an already lower-case address is left as it is |
| EmailFormats.ToLowerIdempotent | models/User.js:13 | lower-casing twice is lower-casing once, so a stored address is found again by its own value |
| BookModel.WithDefaults | models/Book.js:3-63 | `available` defaults to true, `rating` to 0, both covers to the placeholder, each only when undefined. Every given value is kept, covers, availability and rating included. Title and author are stored trimmed; description, category and both years are kept as given |
| BookModel.BookSchemaValid | models/Book.js:3-63 | the validators: trimmed title and author and the description and category non-empty, a publication year given, the rating within [0, 5] |
| BookModel.DefaultsSchemaValid | models/Book.js:3-63 | a new book passes the schema exactly when its required fields are given and non-empty and any rating given lies in [0, 5]; the defaults never cause a refusal |
| BookModel.SyncPair | models/Book.js:69-81 | one pair of duplicated fields: a set field is copied into its unset twin; its properties are the three lemmas below |
| BookModel.SyncPairAgrees | models/Book.js:69-81 | after the hook both twins of a pair are set or both unset; a lone set value is copied into the unset twin |
| BookModel.SyncPairKeepsSettled | models/Book.js:68-84 | when both twins are already set the hook leaves them unchanged, even if they differ; likewise when both are unset |
| BookModel.SyncPairIdempotent | models/Book.js:68-84 | saving a second time changes neither pair |
| BookModel.PreSave | models/Book.js:68-84 | the hook's four guarded assignments give the year pair and the cover pair their synchronised values and leave title, author, availability and rating alone |
| BorrowRequestModel.ParseStatus | models/BorrowRequest.js:56-63 | a name the status enumeration accepts is the name of the status it yields |
| BorrowRequestModel.ParseStatusName | models/BorrowRequest.js:56-63 | every status's name parses back to that status |
| BorrowRequestModel.SchemaValid | models/BorrowRequest.js:3-100 | the validators: required fields non-empty, the member e-mail in the form's format, the duration in [1, 30], the fine not negative; `SubmitSchemaRejectsBlank` and `AllSchemaValid` build on it |
| BorrowRequestModel.NewRequest | models/BorrowRequest.js:49-100 | a new record is pending with fine 0, no request number, empty approver, rejecter and reason, no dates except submission |
| BorrowRequestModel.RequestNumber | models/BorrowRequest.js:113 | the generated number starts with `BRW-` and carries more after it |
| BorrowRequestModel.AssignRequestId | models/BorrowRequest.js:111-116 | the hook gives a record without a number a generated one and leaves a numbered record unchanged |
| BorrowRequestModel.RequestIdStable | models/BorrowRequest.js:111-116 | a second save never renumbers a request |
| BorrowRequestModel.IsOverdue | models/BorrowRequest.js:125-130 | the `isOverdue` virtual: borrowed, with a due date strictly before now |
| BorrowRequestModel.OverdueStaysOverdue | models/BorrowRequest.js:125-130 | overdue once is overdue at every later instant, and never overdue up to the due date |
| BorrowRequestModel.DaysRemaining | models/BorrowRequest.js:133-141 | defined exactly for a borrowed request with a due date; then it is the number of days to the due date, rounded up |
| BorrowRequestModel.DaysRemainingVsOverdue | models/BorrowRequest.js:125-141 | an overdue borrowed request has at most 0 days remaining, a positive count means not overdue, and a due date at this instant is not overdue |
| BorrowRequestModel.CalculateFine | models/BorrowRequest.js:156-168 | the fine is never negative. It is positive exactly for a returned request with both dates returned after its due date, and then equals the late days rounded up |
| BorrowRequestModel.CalculateFineExamples | models/BorrowRequest.js:156-168 | three days late costs 3, one millisecond late costs 1, on time or early costs 0 |
| BorrowRequestModel.OverdueRequests | models/BorrowRequest.js:148-153 | selects exactly the borrowed requests whose due date has passed |
| BorrowLifecycle.EffectiveDuration | controllers/borrowController.js:36 | an absent, unparsable or zero duration becomes 14; any other parsed value is kept |
| BorrowLifecycle.SubmittedRecord | controllers/borrowController.js:72-84 | the new record is pending, owned by the caller, with trimmed snapshot fields, the effective duration, fine 0, no due date and a request number |
| BorrowLifecycle.HasActiveRequest | controllers/borrowController.js:59-63 | whether the member already has a pending, approved or borrowed request for the book |
| BorrowLifecycle.Submit | controllers/borrowController.js:19-84 | each guard in the controller's order, as an if-and-only-if: missing fields, malformed e-mail, duration out of bounds, unknown book, unavailable book, active request. When every guard and the schema pass and the id and number are free, the submission succeeds. A failure changes nothing. Success adds exactly one schema-valid pending record under the new id, with an unused request number, and leaves the books untouched |
| BorrowLifecycle.SubmitSchemaRejectsBlank | controllers/borrowController.js:72-84 | past the controller's checks, the schema refuses the record exactly when a required snapshot field is white space only |
| BorrowLifecycle.Plan | controllers/borrowController.js:171-265 | an accepted move follows the graph and strictly raises the rank, keeping the snapshot. Only approve writes unavailable and only return writes available. A return's fine is the supplied one or 0, and a negative fine is refused by the schema. A rejection needs a reason that is non-blank after trimming, is refused without one, and records the trimmed reason, the rejecter and the time. A return records the supplied date when truthy, else now. A move to borrowed records the borrow time. Each of the approval, borrow, return and rejection fields is written only by its own target and kept by every other move. An unknown or `pending` target is refused |
| BorrowLifecycle.PlanTakesEveryEdge | controllers/borrowController.js:171-265 | every move of the graph is taken when asked for, given a reason for reject and a non-negative fine for return |
| BorrowLifecycle.PlanRefusesOffGraph | controllers/borrowController.js:173-253 | a target the current status may not move to is refused with that target's error |
| BorrowLifecycle.ApproveDueDate | controllers/borrowController.js:180-189 | approval records approver and time and sets the due date to the supplied one when truthy, or now plus the duration in days |
| BorrowLifecycle.Transition | controllers/borrowController.js:159-275 | an unknown request or refused move changes nothing. Otherwise only that record is rewritten, then the book's flag for approve or return. A deleted book gives exactly a storage failure, after the record was written |
| BorrowLifecycle.TransitionMovesForward | controllers/borrowController.js:171-275 | a record a transition changes moved forward along the graph with its snapshot intact, and its book's flag is false after approve, true after return, otherwise as before |
| BorrowLifecycle.Delete | controllers/borrowController.js:303-326 | a member may delete only their own pending request, an administrator any, and deletion succeeds exactly then. Success removes exactly that record and restores an approved or borrowed request's book, and no other |
| BorrowLifecycle.ListRequests | controllers/borrowController.js:114-137 | a member sees only their own requests; a status filter other than `all` keeps only that status (nothing for an unknown one); everything visible and matching is listed |
| BorrowLifecycle.MyRequests | controllers/borrowController.js:418-420 | exactly the caller's requests |
| BorrowLifecycle.ListingsAgree | controllers/borrowController.js:114-137 | the three listings agree: a member's unfiltered listing and their per-member listing of themselves are their own requests; filtered, a member sees their own requests of that status; an administrator's per-member listing is that member's own listing, and their unfiltered listing is the whole store |
| BorrowLifecycle.UserRequests | controllers/borrowController.js:344-356 | refused exactly when a non-administrator asks for another member's requests; otherwise exactly that member's |
| BorrowLifecycle.WithStatus | controllers/borrowController.js:383-387 | exactly the requests with the given status |
| BorrowLifecycle.Stats | controllers/borrowController.js:375-391 | administrators only. The total is the number of requests, each status figure the number of requests in that status, and the overdue figure the borrowed requests past due, never more than the borrowed count |
| BorrowLifecycle.StatusesPartition | controllers/borrowController.js:382-387 | the six per-status counts add up to the total |
| BorrowLifecycle.StatusesCover | controllers/borrowController.js:382-387 | every request has one of the six statuses |
| BorrowInvariants.SubmitKeepsRecords | controllers/borrowController.js:59-84 | submission keeps at most one active request per (member, book), every record schema-valid, and request numbers unique |
| BorrowInvariants.TransitionKeepsRecords | controllers/borrowController.js:154-275 | transitions keep the same three record invariants |
| BorrowInvariants.DeleteKeepsRecords | controllers/borrowController.js:301-326 | deletion keeps the same three record invariants |
| BorrowInvariants.ApproveKeepsLedger | controllers/borrowController.js:172-190 | approving a pending request for an available book keeps the ledger: the book is then held by exactly that request and unavailable |
| BorrowInvariants.ReturnKeepsLedger | controllers/borrowController.js:229-245 | returning a book's holder leaves it unheld and available |
| BorrowInvariants.SubmitKeepsLedger | controllers/borrowController.js:44-84 | submission keeps the ledger: each book's flag is false exactly when one approved, borrowed or overdue request holds it, and no book has two holders |
| BorrowInvariants.TransitionKeepsLedger | controllers/borrowController.js:171-275 | every transition keeps the ledger except approving a request whose book is already unavailable |
| BorrowInvariants.DeleteKeepsLedger | controllers/borrowController.js:321-326 | every deletion keeps the ledger except deleting an overdue request |
| BorrowInvariants.OtherClaimUnchanged | controllers/borrowController.js:59-63 | adding one member's record changes no other member's active-request check |
| BorrowInvariants.SubmitReservesNothing | controllers/borrowController.js:52-84 | after a successful submission the book is still available and another member's claim on it is as before |
| BorrowInvariants.DoubleApprovalBreaksLedger | controllers/borrowController.js:172-190 | two pending requests for one book can both be approved. After that the ledger is broken, and returning the first marks the book available while the second is still approved |
| BorrowInvariants.DeleteOverdueBreaksLedger | controllers/borrowController.js:321-324 | deleting an overdue request succeeds but leaves its book unavailable with no holder |
| BorrowInvariants.OverdueBreaksApprovedOrBorrowedLedger | controllers/borrowController.js:247-258 | the move from borrowed to overdue breaks the reading in which only approved and borrowed requests hold a book |
| BorrowControllerImpl.BorrowController.SubmitBorrowRequest | controllers/borrowController.js:19-84 | the handler's guards and single write leave exactly the outcome and stores `Submit` describes |
| BorrowControllerImpl.BorrowController.UpdateBorrowRequest | controllers/borrowController.js:154-275 | the record write, then the book write, leave exactly the outcome and stores `Transition` describes. The record invariants are kept, and so is the ledger outside an approval while out |
| BorrowControllerImpl.BorrowController.DeleteBorrowRequest | controllers/borrowController.js:301-326 | the availability restore, then the removal, leave exactly what `Delete` describes. The record invariants are kept, and so is the ledger unless an overdue request is deleted |
| UserModel.ParseRole | models/User.js:24-28 | the role enumeration accepts exactly `user` and `admin` |
| UserModel.NewUser | models/User.js:9-32 | a new account has its e-mail lower-cased and role `user` unless given, is unverified and carries no code |
| UserModel.AccountValid | models/User.js:4-23 | the validators: name, e-mail and a password of at least six characters present, the e-mail in the account format |
| UserModel.ShortPasswordInvalid | models/User.js:19-23 | a password under six characters fails the schema |
| UserModel.OtpCode | models/User.js:58 | a code is six decimal digits denoting 100000 plus the draw, so it lies in [100000, 999999] |
| UserModel.OtpCodeInjective | models/User.js:58 | different draws give different codes |
| UserModel.GenerateOtp | models/User.js:57-61 | the account gets the drawn code and an expiry ten minutes from now, and the code is returned |
| UserModel.IsValidOtp | models/User.js:63-65 | the code equals the stored one and its expiry is strictly in the future |
| UserModel.ValidOtpWindow | models/User.js:63-65 | an accepted code is the stored one, stays accepted at every earlier instant, and is refused from its expiry on |
| UserModel.FreshOtpWindow | models/User.js:63-65 | a fresh code is accepted strictly before its expiry and not at or after it, and no other string is accepted |
| UserModel.OtpSingleUse | models/User.js:57-65 | a cleared code accepts nothing; a newly issued code makes an older different one fail |
| AuthControllerImpl.OwnerUnique | models/User.js:12 | with unique e-mails one address names at most one account |
| AuthControllerImpl.ReplaceKeepsValid | models/User.js:9-23 | saving a complete, lower-case account whose e-mail no other account holds keeps the store valid |
| AuthControllerImpl.AccountStore.RegisterUser | controllers/authController.js:5-58 | missing fields and a taken e-mail are refused with their causes, and a taken id gets the same duplicate-key answer as a taken e-mail, and a short password is refused. Success stores one schema-valid, unverified account holding a fresh code, with role `user` unless `admin` was asked for. A failed mail still reports success. Registration succeeds exactly when the fields are present, the e-mail free, the role known, the account valid and the id fresh |
| AuthControllerImpl.AccountStore.Admit | controllers/authController.js:24-32 | the two saves of registration keep the store valid and leave it with exactly the new account carrying its first code |
| AuthControllerImpl.AccountStore.VerifyOtp | controllers/authController.js:85-121 | unknown, already verified and wrong or expired code are told apart. Success, exactly for an unverified owner presenting a valid code, marks exactly that account verified and clears its code |
| AuthControllerImpl.AccountStore.LoginUser | controllers/authController.js:147-182 | an unverified account is refused before its password is compared. An unknown e-mail and a wrong password give the same refusal. Success, exactly when a verified owner's password matches, names that owner |
| AuthControllerImpl.AccountStore.ForgotPassword | controllers/authController.js:208-243 | a missing e-mail is refused and changes nothing. An unknown e-mail reports success and changes nothing. A known account, verified or not, gets a fresh code that stays stored even when the mail fails |
| AuthControllerImpl.AccountStore.ResetPassword | controllers/authController.js:254-290 | a short new password, an unknown e-mail and an invalid code are refused without change, each exactly in its case. Success, exactly when the owner's code is valid, replaces exactly that account's password and clears its code |
| AuthControllerImpl.AccountStore.ResendOtp | controllers/authController.js:346-388 | unknown and already verified are refused without change. An unverified account gets a fresh code, kept even when the mail fails |
| AuthControllerImpl.AccountStore.UpdateProfile | controllers/authController.js:399-425 | an e-mail held by another account is refused. Given fields are written, the e-mail lower-cased, and absent fields left alone. An empty name or a malformed e-mail is refused and nothing changes. The update succeeds exactly when the e-mail is free, the given fields are acceptable and the account exists, and reports a missing account exactly when only the account is missing |
| Favorites.FavoritesOf | controllers/favoriteController.js:6-8 | exactly the caller's pairs |
| Favorites.IsFavorite | controllers/favoriteController.js:97-117 | `checkFavorite`: whether the caller has the pair |
| Favorites.CheckAgreesWithList | controllers/favoriteController.js:97-117 | the check is true exactly when the pair is on the caller's list |
| Favorites.AddThenCheck | controllers/favoriteController.js:47-50 | after adding a pair its check is true and every other check is unchanged |
| Favorites.RemoveThenCheck | controllers/favoriteController.js:70-82 | after removing a pair its check is false and every other check is unchanged |
| Favorites.OtherListsUnchanged | controllers/favoriteController.js:47-82 | adding or removing one member's pair leaves every other member's list as it was |
| Favorites.AddThenRemove | controllers/favoriteController.js:47-82 | removing a just-added new pair restores the store |
| Favorites.FavoriteStore.AddFavorite | controllers/favoriteController.js:23-58 | an absent or unknown book is not found, and an existing pair is refused; neither changes anything. Success happens exactly otherwise, and adds exactly that pair |
| Favorites.FavoriteStore.RemoveFavorite | controllers/favoriteController.js:68-87 | a missing pair is not found and nothing changes; otherwise exactly that pair is removed |
| Notifications.ParseKind | models/Notification.js:17-21 | the type enumeration accepts exactly the six type names |
| Notifications.Mine | controllers/notificationController.js:8 | the caller's notifications, all of them and no others |
| Notifications.Latest | controllers/notificationController.js:8-11 | the listing has at most `limit` entries |
| Notifications.GetNotifications | controllers/notificationController.js:6-16 | at the limit of fifty, the listing is the caller's notifications in reverse creation order, at most fifty, taken from the store; over a store whose creation times never decrease it is newest first |
| Notifications.LatestMembers | controllers/notificationController.js:8-11 | the listing holds only the caller's notifications from the store, as many as the caller has up to the limit |
| Notifications.LatestIsNewestMine | controllers/notificationController.js:8-11 | the listing is the caller's notifications in reverse creation order, cut after the limit |
| Notifications.LatestSorted | controllers/notificationController.js:9 | over a store whose creation times never decrease, the listing is newest first |
| Notifications.UnreadCount | controllers/notificationController.js:31-34 | the count of the caller's unread notifications is at most the store size |
| Notifications.UnreadCountZeroIff | controllers/notificationController.js:31-34 | the unread count is zero exactly when every notification of the caller is read |
| Notifications.MarkRead | controllers/notificationController.js:54-58 | only the caller's notification under the id becomes read; every other one is unchanged |
| Notifications.MarkReadIdempotent | controllers/notificationController.js:54-58 | marking the same notification twice is marking it once |
| Notifications.MarkReadCounts | controllers/notificationController.js:54-65 | an id the caller does not own changes nothing. The caller's unread count never grows and nobody else's moves. The marked notification is read |
| Notifications.MarkAll | controllers/notificationController.js:85-88 | every notification of the caller becomes read and every other one is unchanged |
| Notifications.MarkAllClears | controllers/notificationController.js:85-88 | afterwards the caller has nothing unread, and every other member's notifications and count are as they were |
| Notifications.Build | controllers/notificationController.js:110-117 | creation succeeds exactly when owner, title and message are present and the type is one of the six. The new notification is unread and carries the given fields |
| Notifications.Create | models/Notification.js:34-36 | a built notification is appended unless its id is taken; a failure leaves the store unchanged |
| Notifications.CreateKeepsInvariants | models/Notification.js:34-36 | creation keeps ids unique, and keeps the store in creation order when the clock has not gone back |
| Notifications.NotificationStore.MarkAsRead | controllers/notificationController.js:52-65 | not found, and nothing changed, unless the caller owns the id. Otherwise the store becomes `MarkRead` of the old store |
| Notifications.NotificationStore.MarkAllAsRead | controllers/notificationController.js:83-88 | the loop leaves the store as `MarkAll` of the old store |
| Notifications.NotificationStore.CreateNotification | controllers/notificationController.js:106-117 | the type falls back to `general` when absent or empty and the link to the empty string. The outcome and store are those of `Create` |
| Notifications.NotificationStore.CreateNotificationForUser | controllers/notificationController.js:133-146 | defaults apply only to left-out parameters. No error reaches the caller: the store either gains the one notification or is unchanged |

## Source gaps the model exhibits

The borrow code does not keep the availability ledger in every case. The
ledger says: a book is unavailable exactly when one approved, borrowed or
overdue request holds it. The model proves every other operation keeps it
(`TransitionKeepsLedger`, `DeleteKeepsLedger`, `SubmitKeepsLedger`) and
exhibits the exceptions:

- Approval does not re-check `available`, so two pending requests for one
  book can both be approved (`DoubleApprovalBreaksLedger`).
- Deleting an `overdue` request does not restore availability
  (`DeleteOverdueBreaksLedger`).
- The reading in which only approved and borrowed requests hold a book is
  broken by the ordinary move to `overdue`
  (`OverdueBreaksApprovedOrBorrowedLedger`). The ledger above therefore
  counts `overdue` as holding the book.
- The controller never calls `calculateFine`. A return's fine is the
  supplied value or 0, and `CalculateFine` is modelled on its own.
- There is no sweep that moves borrowed requests to `overdue`, and no
  transition sends a notification. Neither is modelled.

Four further behaviours of the code, which the model keeps:

- `approved → returned` is permitted.
- The unavailable-book and duplicate-request refusals are ordinary errors of
  their own kinds.
- The `returnedAt` value a return writes is not a schema field and is
  dropped; only `returnedDate` is stored.
- Registration accepts a requested role of `admin`.

## Left out

- HTTP plumbing (request and response objects, JSON shapes, status codes): outcomes are result values with one error per kind.
- `populate`, and `sort` on the favourites listing and the three borrow listings (controllers/borrowController.js:137, 356, 420): listings are modelled as sets, so their order is not modelled.
- The case-insensitive `$regex` search of the borrow listing: the listing is modelled without the text search.
- The mail transport (`utils/emailService.js`): its success is a parameter.
- bcrypt hashing and JWT issuing: `matchPassword` is a function parameter, stored passwords are kept as given, and no token is modelled.
- The password-hashing pre-save hook (models/User.js:45-51), including its missing return after `next()`: foreign library code.
- `Math.random` and `Date.now`: the draw, the request-number suffix, new ids and the current time are parameters.
- Concurrency: operations are sequential and atomic. The source's separate read-then-write calls (for example controllers/borrowController.js:267-274) are not claimed to be race-free.
- `server.js`, `config/database.js`, `routes/*.js`, `middleware/authMiddleware.js`: wiring, bootstrap and authentication. The caller's identity and role are given, and the update route's administrator-only middleware is not a check in the model.
- `controllers/bookController.js`, `controllers/reviewController.js` and `models/EnhancedBook.js`: catalog CRUD, floating-point rating averages and an unused model.
- `getMe`: a plain lookup with no state change.
- `updatedAt` timestamps and the unused `resetPasswordToken` fields: no rule reads them.
- BookModel.WithDefaults: ratings are reals and the other numeric fields integers; no floating-point rounding is modelled.
- BorrowLifecycle.Plan: `parseFloat(fine)` is taken as an optional integer, so fractional fines are not modelled; a due date or return date is a number of milliseconds, so a date string is not parsed.
- AuthControllerImpl.AccountStore.Valid: keeps presence, length, lower-case and uniqueness of e-mails, but not the e-mail pattern. RegisterUser and UpdateProfile state the pattern for the e-mail they write.
- BorrowControllerImpl.BorrowController.SubmitBorrowRequest: its `ensures` ties it to `Submit` and does not restate the store invariants. Those follow from `SubmitKeepsRecords` and `SubmitKeepsLedger`.
- Notifications.Latest: store order stands for creation order. The listing is the reverse of store order, not a sort by `createdAt`. The two agree when the clock never goes back (`LatestSorted`), and ties are resolved one of the ways the store may resolve them. A clock that goes back is not modelled.
- Ids are opaque strings. A malformed ObjectId makes the source throw a CastError and answer 500 (controllers/borrowController.js:44, 159 and 303, controllers/favoriteController.js:27, 70 and 99, controllers/notificationController.js:54). The model answers `BookNotFound`, `RequestNotFound`, `FavoriteNotFound` or `NotificationNotFound` instead, and the favourite check answers false. The stores are unchanged either way.
- Notifications.Create: only the id collision is modelled as a storage failure; other database errors are not.
- EmailFormats.ToLower: only ASCII letters are lower-cased; JavaScript's full Unicode `toLowerCase`, which also maps letters such as the Kelvin sign and can change the length, is not modelled.
- Strings are sequences of code points, so lengths (the six-character password minimum at models/User.js:22 and controllers/authController.js:265) are counted in code points, not in UTF-16 units as JavaScript counts them.
