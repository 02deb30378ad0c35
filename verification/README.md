# Raffle ticket store: a Dafny model

This project models the core of a small raffle web application
(`app.py`). A buyer submits a purchase request for a number of
tickets of a raffle, with their personal and bank-transfer details. The
request is filed as *pending* and reserves nothing. An administrator later
approves it or rejects it. On approval the application draws that many
distinct ticket numbers at random from the numbers of the raffle that no
approved purchase holds yet. It stores them in ascending order and takes
the quantity off the raffle's `available_tickets`. Administrators also
create and edit raffles. At start-up the application makes sure a default
administrator account exists.

The model has four modules:

- `Tickets` (`tickets.dfy`): the free pool of numbers and the draw.
  - The pool is `FreePool`, mirroring `range(1, total + 1)` minus the
    numbers taken.
  - `random.sample` is any duplicate-free choice from the pool.
  - The list sort is `SortAscending`.
  - Lemmas cover pool sizes and draws.
- `Records` (`records.dfy`): the raffle, purchase and user rows, the
  errors a handler can end with, and the functions that read the rows.
  - `Existing` gives the numbers already assigned in a raffle.
  - `Strip` is `str.strip()` with Python's whitespace set; its properties
    are lemmas (`StripFrames`, `LeadingSpaceRun`, `TrailingSpaceRun`).
  - There are username and email lookups.
- `Lifecycle` (`lifecycle.dfy`): each handler as a function from the old
  store to the new one, plus the ticket invariant of a raffle.
  - The invariant (`Consistent`): no number is held twice, every number
    lies in `1..total_tickets`, and `total_tickets - available_tickets`
    equals the count of assigned numbers.
  - Its first half (`AllApart`: no raffle holds a number twice) is kept by
    every handler from any state, whatever the counts say. So is the range
    (`AllInRange`), except when an edit lowers `total_tickets` below an
    assigned number. The `...KeepsNumbersApart` lemmas prove this, and give
    each handler's effect on the count as an exact offset (`CountGap`).
  - Lemmas show which handlers keep the whole invariant, and which ones
    break the count exactly as written.
- `RaffleStore` (`store.dfy`): the store as a class with one field per
  table and one method per state-changing handler.
  - Each method is proved against the matching `Lifecycle` function.
  - Approval collects the assigned numbers with the same loop the handler
    uses.
  - Two client methods replay worked examples: ten tickets with a soft
    capacity check, and a five-ticket raffle drawn out completely.

Record ids are positions: the row with id `n` is element `n - 1` of its
sequence. A request's outcome is a `Result`:

- `Ok` carries the new id, the drawn numbers, or whether the admin was
  created.
- `Err` names the refusal: a non-admin caller, a missing row, a failed
  check, or a refused insert. After an `Err` the store is unchanged.

The source does not guard against three things, and the model shows what
each one does:

- Re-approving an approved purchase draws a fresh set of numbers. It
  subtracts the quantity a second time, so the count drifts.
- Rejecting an approved purchase leaves its numbers in the row but no
  longer counts them.
- Editing `total_tickets` leaves `available_tickets` alone, so the count
  drifts. A smaller total also leaves assigned numbers out of range.

These are modelled exactly as written and are stated as lemmas. The model
does not add the missing guards.

`buy_tickets` does not check that the raffle is active, and it accepts a
zero or negative quantity. The model follows the code (app.py:114-157).

## Model

| member | source | states |
|---|---|---|
| Tickets.FreePool | app.py:246 | the pool is strictly ascending and holds exactly the numbers 1..total that are not taken (empty when total < 1) |
| Tickets.PoolSize | app.py:246 | the pool has total minus (number of distinct taken values within 1..total) elements |
| Tickets.PoolSizeOfDistinct | app.py:246 | when the taken numbers are distinct and in 1..total, the pool has total - \|taken\| elements |
| Tickets.Insert | app.py:252 | inserting into an ascending list gives an ascending list with the same multiset plus the new number |
| Tickets.SortAscending | app.py:252 | list.sort(): the result is ascending and a permutation of the input |
| Tickets.SampleExists | app.py:247-251 | whenever 0 <= k <= pool size, random.sample(pool, k) has a possible result |
| Tickets.SortedSampleIsDraw | app.py:251-252 | a sorted sample is exactly k numbers, strictly ascending, each in 1..total and none already assigned |
| Tickets.DrawWholePool | app.py:246-252 | drawing as many numbers as the pool holds stores exactly the pool, in order |
| Records.ExistingMembers | app.py:239-243 | a number is among a raffle's collected numbers exactly when some approved purchase of that raffle holds it |
| Records.LeadingSpaceRun | app.py:307 | the count is exactly the whitespace run at the start of the text |
| Records.TrailingSpaceRun | app.py:332 | the count is exactly the whitespace run at the end of the text |
| Records.StripFrames | app.py:307 | str.strip(): the result is the input's slice between its leading and trailing whitespace runs, and neither starts nor ends with whitespace |
| Records.UniqueNameCount | app.py:29 | with unique usernames, a name belongs to exactly one user or to none |
| Lifecycle.PoolOfMembers | app.py:239-246 | the pool of a purchase is strictly ascending and holds exactly the numbers 1..total_tickets of its raffle that no approved purchase of that raffle holds |
| Lifecycle.PoolMatchesAvailable | app.py:120 | under the invariant the approval-time pool size equals available_tickets, so the soft check at submission and the check at approval agree; a negative total gives an empty pool |
| Lifecycle.PoolSizeIsAvailable | app.py:246-247 | under its raffle's invariant, the pool an approval of a purchase draws from has exactly available_tickets numbers |
| Lifecycle.NewPurchase | app.py:139-151 | the filed row belongs to user 1, carries the form's raffle and quantity, is pending, approved by nobody and holds no number in any raffle |
| Lifecycle.Submitted | app.py:139-154 | submission appends one pending purchase after the existing rows and changes no raffle and no user |
| Lifecycle.SubmissionKeepsNumbersApart | app.py:139-154 | from any state with numbers apart, a submission keeps every raffle's numbers and every count unchanged, so numbers stay apart and in range |
| Lifecycle.SubmissionPreservesConsistency | app.py:138-153 | filing a purchase changes no raffle and no assigned number and keeps every raffle consistent |
| Lifecycle.ApprovedWith | app.py:255-261 | approval keeps the number of raffles, purchases and the users |
| Lifecycle.ApprovalAtRaffle | app.py:239-261 | for a raffle whose numbers are apart, any approval (of a pending, rejected or approved purchase) keeps them apart and, if they were, in range; the count moves off by exactly the numbers the purchase held before |
| Lifecycle.ApprovalKeepsNumbersApart | app.py:239-261 | from any state with numbers apart, whatever the counts, any approval keeps every raffle's numbers apart and in range where they were; each count moves off by the numbers the purchase held before |
| Lifecycle.ApprovalPreservesConsistency | app.py:224-265 | approving a purchase that is not yet approved keeps the store well formed and every raffle consistent |
| Lifecycle.ReapprovalBreaksCount | app.py:239-261 | re-approving an approved purchase that holds numbers breaks total - available == assigned count |
| Lifecycle.ApprovalTakesWholePool | app.py:246-261 | approving exactly the pool's size of a purchase not yet approved stores the whole pool and leaves its raffle consistent with 0 available |
| Lifecycle.DrainedPoolIsEmpty | app.py:246-247 | in a consistent raffle with 0 available, every purchase of that raffle meets an empty pool |
| Lifecycle.ApprovalExhaustsPool | app.py:246-261 | approving the quantity equal to the pool size assigns the whole pool, leaves 0 available and an empty pool for every purchase of that raffle |
| Lifecycle.RejectedBy | app.py:275-277 | rejection changes no raffle and no user |
| Lifecycle.RejectionAtRaffle | app.py:274-277 | for a raffle whose numbers are apart, any rejection keeps them apart and, if they were, in range; the count moves off by the numbers the purchase held while approved |
| Lifecycle.RejectionKeepsNumbersApart | app.py:267-281 | from any state with numbers apart, whatever the purchase's status, a rejection keeps every raffle's numbers apart and in range where they were; each count moves off by the numbers the purchase held |
| Lifecycle.RejectionPreservesConsistency | app.py:267-281 | rejecting a purchase that is not approved keeps every raffle consistent |
| Lifecycle.RejectingApprovedBreaksCount | app.py:274-277 | rejecting an approved purchase keeps its numbers in the row but breaks the count |
| Lifecycle.NewRaffle | app.py:301-310 | the new row has available_tickets == total_tickets == the form's total, the form's title, description, flag and end date, and an image URL that neither starts nor ends with whitespace |
| Lifecycle.Created | app.py:301-312 | creation appends the raffle after the existing ones, changes no purchase and no user, and in a well-formed store no purchase holds a number in the new raffle |
| Lifecycle.CreationKeepsNumbersApart | app.py:301-312 | from any state with numbers apart, creation keeps every older raffle's numbers and count, and the new raffle is consistent |
| Lifecycle.CreationPreservesConsistency | app.py:301-312 | a new raffle starts with every ticket available and keeps every raffle consistent |
| Lifecycle.Edited | app.py:328-336 | editing changes no purchase and no user |
| Lifecycle.EditingTotalBreaksConsistency | app.py:331 | in any well-formed state, editing keeps numbers apart iff they were and available_tickets as it was; the count moves off by the change of total_tickets, so where it held it still holds iff total_tickets is unchanged; where the numbers were in range they stay so iff none exceeds the new total |
| Lifecycle.EditingKeepsNumbersApart | app.py:318-338 | from any state with numbers apart, editing keeps every raffle's numbers apart; where all were in range, they stay so iff no number of the edited raffle exceeds the new total |
| Lifecycle.Initialized | app.py:346-359 | start-up changes no raffle and no purchase |
| Lifecycle.InitializedHasOneAdmin | app.py:346-359 | after a start-up that did not fail, exactly one user is called Admin and users stay unique |
| Lifecycle.InitializeIdempotent | app.py:342-362 | a second start-up changes nothing |
| Lifecycle.InitializedRepeatedly | app.py:402-418 | any number of start-ups leave the store as the first one did |
| RaffleStore.Store.CollectAssigned | app.py:239-243 | the loop collects exactly the concatenated numbers of the raffle's approved purchases |
| RaffleStore.Store.BuyTickets | app.py:113-157 | a missing raffle is NotFound; quantity > available is NotEnoughAvailable; an empty field is MissingField; otherwise exactly the new pending row is appended with the next id, raffles untouched; numbers stay apart and in range, and consistency is kept |
| RaffleStore.Store.ApprovePurchase | app.py:224-265 | a non-admin is AccessDenied, a missing purchase NotFound, a pool smaller than the quantity NotEnoughNumbers, a negative quantity NegativeSample; otherwise the store becomes ApprovedWith of a sorted draw of exactly quantity fresh numbers in 1..total; numbers stay apart and in range |
| RaffleStore.Store.RecordApproval | app.py:255-261 | the purchase becomes approved with the drawn numbers and the approver, and its raffle loses quantity available tickets; numbers stay apart and in range |
| RaffleStore.Draw | app.py:251-252 | the result is quantity numbers of the pool, strictly ascending, each in 1..total and not taken |
| RaffleStore.Store.RejectPurchase | app.py:267-281 | a non-admin is AccessDenied, a missing purchase NotFound; otherwise only status and approver of that purchase change and all numbers stay; numbers stay apart and in range, and consistency is kept when the purchase was not approved |
| RaffleStore.Store.CreateRaffle | app.py:293-314 | a non-admin is AccessDenied; otherwise the raffle gets the next id with available == total == the form's total; numbers stay apart and in range, and consistency is kept |
| RaffleStore.Store.EditRaffle | app.py:318-338 | a non-admin is AccessDenied, a missing raffle NotFound; otherwise the fields are overwritten, available_tickets and purchases untouched; numbers stay apart, and the range survives iff no assigned number exceeds the new total |
| RaffleStore.Store.EnsureDatabaseInitialized | app.py:342-359 | with an Admin present, nothing changes; with the email taken, the insert is refused; otherwise the default admin is appended; afterwards exactly one Admin exists |
| RaffleStore.PendingPoolIsWhole | app.py:239-247 | while no purchase is approved, the pool is all of 1..total |
| RaffleStore.NothingApprovedIsConsistent | app.py:239-247 | with nothing approved and every raffle fully available, every raffle is consistent |
| RaffleStore.ApproveThree | app.py:246-261 | in a fresh ten-ticket raffle, approving the pending purchase of three leaves seven tickets available |
| RaffleStore.WholePoolTaken | app.py:246-261 | in a fresh five-ticket raffle with purchases of five and one, approving the first assigns exactly 1..5 and leaves the second an empty pool |

## Left out

- HTTP, Flask routing, templates, flash messages and redirects are not modelled. Each handler returns a `Result` instead of a redirect.
- Login and sessions are not modelled; the admin handlers receive the logged-in caller as a parameter.
  - Redirecting anonymous users to the login page (`login_required`) is not modelled.
  - Password hashing and the login and logout views are not modelled.
- The read-only views are not modelled: index, raffle detail, my purchases, the admin dashboard and the admin lists. They change no state.
- The image proxy and cache (app.py:364-400) is not modelled. It is network and file I/O.
- `price`, `total_amount` and all timestamps (`created_at`, `approved_at`) are not modelled. They are floating point and clock values that no ticket rule reads.
- Form parsing failures are not modelled. The model takes already-parsed integers, and the end date as text. In the source each of these raises an exception and no state changes:
  - `int()` on a missing or malformed `quantity` or `total_tickets`;
  - `float()` on a missing or malformed `price`;
  - `strptime` on a missing or malformed `end_date`;
  - a missing `title` or `description`, refused as NOT NULL at commit.
- Missing form fields that do not raise are modelled by their values:
  - a missing buyer or payment field is `None`, which the `all()` check rejects as `MissingField` like an empty one (app.py:126-134); the model writes both as `""`;
  - a missing `image_url` defaults to `''` (app.py:307, 332);
  - a missing `is_active` reads as false (app.py:308, 333).
- The JSON encoding of `assigned_tickets` is not modelled. The list is kept as a sequence; an absent list and an empty one are the same.
- RaffleStore.Draw: `random.sample` is any duplicate-free choice of the right size from the pool. Its probability distribution is not modelled.
- RaffleStore.Store.EnsureDatabaseInitialized: the unique email column refusing the insert is modelled as an error that leaves the store unchanged. The source raises at import time instead. Creating the tables (`db.create_all`) is the constructor.
- Concurrent requests and transaction isolation are not modelled. Each handler runs alone and commits at its end.
- RaffleStore.Store.ApprovePurchase: its contract states that numbers stay apart and in range, but not that the whole invariant is kept. That follows from its `ApprovedWith` postcondition together with Lifecycle.ApprovalPreservesConsistency.
