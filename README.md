# User cache of the blog service's user controller

This project models the read-through / write-invalidate user cache in the
user controller of a Node.js blog service (`src/controllers/userController.ts`).
The controller keeps two things side by side:

- a persistent store: users with unique identifiers, and blogs that each
  name their owner;
- a process-wide cache, keyed `"users"` (a snapshot of user records),
  `"totalUsers"` (a count) and `"allBlogs"` (the blog records).

The handlers are modelled as the methods of one class, `UserController.Controller`,
whose fields `users`, `blogs` and `cache` are the store and the cache:

- `GetAllUsers`: the paginated listing.
- `GetUserById`: a cache-first point lookup.
- `UpdateAllUsersCache` and `CacheUsers`: the two rebuild routines.
- `AdminCreateUser`, `UpdateUser` and `DeleteUser`: the mutating handlers.
  Each changes the store and then rebuilds cache keys from it.

The pure parts are functions with lemmas:

- `Pagination`: the page arithmetic, i.e. `ceil(total / pageSize)`, the
  skip clamped at 0, and the slice.
- `Ordering`: the ordering by identifier, an insertion sort. With unique identifiers every sort gives this order, so stability is not modelled.
- `Records`: the store queries (find by id, delete by id, delete blogs by
  owner).

`Scenarios` holds client methods that run requests one after another.
Their outcomes follow from the handlers' contracts alone.

The model keeps the code's quirks and does not fix them:

- **The page becomes the snapshot.** The page a listing returns is
  written back as the whole `"users"` snapshot (line 180). A later
  listing or lookup then sees only that page. `Scenarios.PartialSnapshotScenario`
  shows the effect: after page 1 of a three-user store, page 2 is empty and
  the third user is not found.
- **The cached count is ignored.** The cached `"totalUsers"` is read and
  then replaced by a fresh count from the store (lines 154-158).
- **A snapshot miss is final.** When a snapshot exists but lacks the
  identifier, `getUserById` answers "not found" without asking the store
  (lines 201-203).
- **Two handlers reply twice.** The first reply is taken as the outcome.
  - In `getUserById` no `return` follows the reply from the snapshot
    (line 204), so the store is still queried. The model performs that
    query and discards it.
  - In `deleteUser` a refused caller receives the refusal, and then the
    success message (lines 326-328).
  - The second reply is an error, not merely a late message: the reply
    has already been sent, so it throws, the catch logs it, its own
    internal-error reply throws as well, and the handler ends in a
    rejected promise. The store and cache effects already happened and
    are as modelled.
- **Passwords differ by path.** The store path of `getUserById` leaves out
  the password field. The snapshot path returns the record with its stored
  hash.
- **Create rebuilds half the snapshot pair.** `adminCreateUser` rebuilds
  `"users"` but not `"totalUsers"`.
- **Empty stores.** With an empty store every page numbered 1 or more is
  out of range. Pages numbered 0 or less pass the range test and give an
  empty page (`Scenarios.EmptyStoreScenario`).

The outside world enters the model as parameters:

- Password hashing is a function parameter `hash`.
- The e-mail and birth-date format checks are boolean parameters.
- An upload is reduced to the file extension its MIME type maps to.
- New identifiers are `FreshId`: larger than every stored identifier and
  at least 1.

Methods whose contracts mention `old` state their whole new state; the
properties of that state are lemmas about the functions they use.

## Model

| member | source | states |
|---|---|---|
| UserController.Controller.GetAllUsers | src/controllers/userController.ts:144-186 | without page or page size the reply is the usage message and the cache is unchanged; `"totalUsers"` is always set to the store's count, whatever was cached; a page past `TotalPages` is rejected and only the count is written; otherwise the page is cut from the sorted snapshot on a hit or from the sorted store on a miss, it holds at most `pageSize` users, and `"users"` then holds exactly that page |
| UserController.Controller.GetUserById | src/controllers/userController.ts:189-218 | the cache is not changed; with a snapshot the reply is exactly the snapshot's user with that id, or not found when the snapshot lacks it, even if the store has it; without one it is exactly the stored user with that id with the password left out, or not found |
| UserController.SortedWindowUnique | src/controllers/userController.ts:168-180 | a page cut from users with unique identifiers has unique identifiers, so the snapshot a listing republishes keeps them unique |
| UserController.Controller.UpdateAllUsersCache | src/controllers/userController.ts:123-132 | `"users"` becomes the store's users and `"totalUsers"` their count, from the same store state; no other key changes |
| UserController.Controller.CacheUsers | src/controllers/userController.ts:134-142 | only `"users"` is rebuilt from the store; the count and the blogs stay as they were |
| UserController.Controller.AdminCreateUser | src/controllers/userController.ts:17-121 | the checks run in the handler's order (birth date, e-mail, missing file, file format, required fields, existing username), and each failure leaves store and cache unchanged; on success the store gains exactly one user, with a fresh identifier and the submitted username, which lookups then find, and only `"users"` is rebuilt |
| UserController.Controller.UpdateUser | src/controllers/userController.ts:221-304 | a bad image format, birth date or e-mail, and an unknown target, are rejected in that order; then the save happens exactly when the caller is an admin or the target; a save replaces the target's record with the edited one, keeps the identifiers, and rebuilds only `"users"`; every other reply changes nothing |
| UserController.Controller.DeleteUser | src/controllers/userController.ts:307-333 | an unknown target is not found; a caller who is neither admin nor the target is refused with no change; otherwise exactly the target leaves the store, every blog it owns goes, `"allBlogs"` holds the remaining blogs, and `"users"` and `"totalUsers"` are rebuilt consistently |
| UserController.Controller.constructor | src/controllers/userController.ts:12 | a process starts with the store as given and an empty cache |
| Pagination.TotalPages | src/controllers/userController.ts:160 | the page count is the least number of pages of `pageSize` entries that holds all the users, i.e. `ceil(total / pageSize)`, and it is 0 exactly when there are none |
| Pagination.Offset | src/controllers/userController.ts:166 | the skip is `(page - 1) * pageSize`, clamped to 0 for pages numbered 0 or less |
| Pagination.Window | src/controllers/userController.ts:171-178 | the slice holds at most `size` entries, exactly `min(size, |s| - start)` of them when `start` is inside the sequence and none otherwise, each the entry at the same offset from `start` |
| Pagination.PageBounds | src/controllers/userController.ts:166-178 | every page holds at most `pageSize` users, and pages numbered 0 or less give the same slice as page 1 |
| Pagination.PageInRange | src/controllers/userController.ts:160-164 | for pages numbered from 1, the range test rejects exactly the pages that would be empty |
| Pagination.FirstPagesPrefix | src/controllers/userController.ts:166-178 | pages 1 to k together are exactly the first `k * pageSize` entries, with no gap and no overlap |
| Pagination.AllPagesCoverAll | src/controllers/userController.ts:160-178 | pages 1 to `TotalPages` together give back the whole ordered collection |
| Pagination.TenIdsExample | src/controllers/userController.ts:160-178 | ten users, pages of 3: four pages, page 1 is [1, 2, 3] and page 4 is [10]; with 5 deleted, page 2 is [4, 6, 7] and there are three pages |
| Ordering.SortById | src/controllers/userController.ts:172-177 | the result is in ascending identifier order and is a permutation of the input |
| Ordering.Insert | src/controllers/userController.ts:177 | inserting adds exactly one occurrence of the user, and the result starts with it or with the old head |
| Ordering.InsertSorted | src/controllers/userController.ts:177 | inserting into a sorted sequence keeps it sorted |
| Ordering.SortByIdOfSorted | src/controllers/userController.ts:172-177 | sorting a sequence already in identifier order changes nothing |
| Ordering.SortByIdCanonical | src/controllers/userController.ts:170-178 | two sequences holding the same users with unique identifiers, in any order, sort to the same sequence |
| Ordering.StrictlySortedUnique | src/controllers/userController.ts:172-177 | two sequences in strictly increasing identifier order that hold the same users are equal |
| Ordering.UniqueUnderPermutation | src/controllers/userController.ts:177 | reordering keeps identifiers unique |
| Ordering.RemoveSorted | src/controllers/userController.ts:320 | deleting a user keeps a sorted store sorted |
| Records.FindById | src/controllers/userController.ts:199 | the lookup finds nothing exactly when no user has the identifier; what it finds is a member with that identifier |
| Records.FindByIdUnique | src/controllers/userController.ts:199 | with unique identifiers the lookup returns exactly the user holding the identifier |
| Records.FreshId | src/controllers/userController.ts:100-112 | the new identifier is larger than every stored one, so no stored user has it, and it is at least 1 |
| Records.RemoveById | src/controllers/userController.ts:320 | the store after the delete holds exactly the users whose identifier differs from the deleted one |
| Records.RemoveByIdUnique | src/controllers/userController.ts:312-320 | deleting keeps identifiers unique, removes exactly the deleted identifier from the set of identifiers, and shrinks the store by one when that identifier was stored |
| Records.RemoveNothing | src/controllers/userController.ts:320 | deleting an identifier nobody holds leaves the store as it was |
| Records.ReplaceById | src/controllers/userController.ts:291 | the save keeps the length and the set of identifiers; afterwards a user is in the store exactly when it is the saved value and its identifier was stored, or it was stored under another identifier |
| Records.ReplacedMembers | src/controllers/userController.ts:291 | a position-by-position replacement of the users holding the saved identifier has the membership and identifiers stated for `ReplaceById` |
| Records.UniqueSlice | src/controllers/userController.ts:176-178 | a slice of a sequence with unique identifiers has unique identifiers |
| Records.ReplaceByIdFacts | src/controllers/userController.ts:252-293 | saving over a stored identifier keeps identifiers unique, and the saved value is what a lookup then finds |
| Records.BlogsWithout | src/controllers/userController.ts:321 | exactly the blogs not owned by the deleted user remain, each as often as before, and none owned by that user |
| Scenarios.SnapshotListingAgrees | src/controllers/userController.ts:168-178 | when the snapshot holds exactly the stored users, in any order, the hit and the miss path give the same page |
| Scenarios.PartialSnapshotScenario | src/controllers/userController.ts:176-180 | three stored users, pages of 2: page 1 is the first two users, page 2 is then empty, and the third user is not found, because page 1 became the snapshot |
| Scenarios.EmptyStoreScenario | src/controllers/userController.ts:160-166 | with an empty store page 1 is out of range, while page 0 passes the test and gives an empty page |
| Scenarios.CreateThenLookupScenario | src/controllers/userController.ts:112-114 | after a create, a lookup finds the new user in the rebuilt snapshot with its password hash, while a lookup from the store alone finds it without the password |
| Scenarios.RefusedDeleteScenario | src/controllers/userController.ts:319-327 | a member deleting someone else is refused, and store and cache stay as they were |
| Scenarios.ListConsistent | src/controllers/userController.ts:168-180 | when the snapshot is the whole ordered store and the count is current, a listing returns the store's own page |
| Scenarios.DeleteThenListScenario | src/controllers/userController.ts:319-324 | after an admin deletes a user from an ordered store, every listing page in range is the page of the store without that user |
| Scenarios.DeleteThenLookupScenario | src/controllers/userController.ts:319-324 | after an admin deletes a user, looking the user up finds nothing |

## Left out

- Request and response objects, status codes and console logging. The replies are the values of `Response`.
- Password hashing with bcrypt is the function parameter `hash`. Its cost factor and salting are not modelled.
- Image decoding, resizing and compression are not modelled, and neither is the stored profile image.
- The e-mail check, the birth-date checks (`parseFloat`, `Number.isFinite`, the digits pattern) and the MIME-type lookup are parameters. Only the allowed-extension test against jpg, jpeg and png is modelled.
- Parsing the query strings: page and page size are integers.
- `UserController.Controller.GetAllUsers` requires a page size of at least 1, so it does not model a page size of 0. In the source, the page count is then Infinity (or NaN for an empty store), so the range test at line 162 lets every page through. On a snapshot miss, `limit(0)` at line 174 means no limit, so the whole sorted store is returned and published as `"users"`. On a snapshot hit, `slice(0, 0)` at line 178 returns an empty list, which empties the snapshot.
- `Math.ceil` on floating-point division is taken as exact integer ceiling.
- Identifiers are plain integers. Store-assigned object ids, `toString` comparisons, and the comparator's subtraction of ids are not modelled; with real object ids that subtraction is not a number and the sort keeps the snapshot's order.
- `Ordering.SortById`: the cached array is sorted in place, and the model sorts a copy. The sorted array is replaced by the page right after, so no later step observes the difference except through aliasing, which is not modelled.
- The `isVerified` flag and the `updatedAt` timestamp are not modelled. The timestamp needs the clock.
- `UserController.Controller.UpdateUser`: fields that are absent from the request body are modelled as empty strings, not as undefined. Store schema validation, which would reject them, is not modelled.
- Store errors and the catch branches that reply with an internal error are not modelled, and neither is a failing rebuild inside `updateAllUsersCache`.
- Asynchronous interleaving is not modelled. Each `await` is a sequential step, so concurrent requests and rebuild races are left out.
- Periodic refresh is absent from this file: the scheduler and its configuration are imported but never used.
- `UserController.Controller.GetAllUsers`: "every page is out of range on an empty store" holds only for pages numbered 1 or more.
