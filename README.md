# Employee store

A model of the in-memory employee store of a small Go CRUD service and of the
repository facade in front of it. The store keeps employee records in a map
from integer id to record, plus a counter `nextID` that starts at 1. It
offers five operations:

- create: give the record the next id and store it;
- get: look a record up by id;
- update: replace a stored record wholesale, but only if its id is stored;
- delete: remove a stored record;
- list: return one page of all records, in the map's unspecified order.

The facade forwards each operation to the store it wraps.

Files and modules:

- `models.dfy` (`Models`): the `Employee` record and its zero value.
- `pagination.dfy` (`Pagination`): the page arithmetic of list over a
  sequence that has already been collected. It covers the exact condition
  under which the Go slice does not panic, pages as windows, and paging
  through all pages reading the sequence in order with no overlap.
- `db.dfy` (`Db`): the `InMemoryStore` class and its invariant. The
  invariant says every key lies in `1 <= k < nextID` and every record
  carries its own key, and the ids handed out so far are a ghost set.
  `ValueBag` is the multiset of a map's values and `Collected` stands for
  "a permutation of the stored records". The module also has the lemmas
  that tie the two together.
- `repo.dfy` (`Repo`): the `EmployeeRepo` class. Each method has the same
  contract as the store method it calls.
- `db_tests.dfy` (`DbTests`) and `repo_tests.dfy` (`RepoTests`): the test
  sequences of the repository, written as client methods. Each one's
  `ensures` holds the outcomes those tests check, and the outcomes are
  proved from the contracts alone.

Go's map iteration order is left open. The list loop (`CollectEmployees`) takes keys
with a such-that choice. What a caller learns is the ghost out-parameter `all`,
the collected sequence: `multiset(all)` equals the multiset of the map's
values. The page returned is `Page(all, page, pageSize)`.

List has no `modifies` clause, so it changes nothing. Get has none either.

## Model

| member | source | states |
|---|---|---|
| `Models.Employee` | models/employees.go:4-9 | the record shape: id, name, position, salary (validation tags and `float64` left out) |
| `Models.Zero` | db/db.go:40-41 | Go's zero record (id 0, empty strings, salary 0), which a lookup of an absent id returns |
| `Pagination.Start` | db/db.go:78 | the offset of page `page`: `(page - 1) * pageSize` |
| `Pagination.InBounds` | db/db.go:78-89 | holds exactly when start > len, or start >= 0 and pageSize >= 0, that is when the list operation does not panic |
| `Pagination.InBoundsIsNoPanic` | db/db.go:78-89 | `InBounds` holds iff the start lies past the end (the early empty return) or the slice from the start to the clamped end satisfies Go's `0 <= low <= high <= len` |
| `Db.InMemoryStore.constructor` | db/db.go:17-22 | a new store has no records, `nextID == 1`, no ids handed out, and satisfies the store invariant |
| `Db.InMemoryStore.CreateEmployee` | db/db.go:25-33 | returns the input with `ID` set to the old `nextID`; `nextID` grows by exactly 1; the map gains exactly that key with the returned record; the id was never live and never handed out before, and is larger than every id handed out before (so it is not reused after a delete); the invariant is kept |
| `Db.InMemoryStore.GetEmployeeByID` | db/db.go:36-42 | `found` iff the id is a key; then the stored record (which carries that id), otherwise the zero record; nothing changes |
| `Db.InMemoryStore.UpdateEmployee` | db/db.go:45-54 | `true` iff `employee.ID` is a key; then the record under that key is replaced wholesale, otherwise the map is unchanged; key set, `nextID` and handed-out ids unchanged; invariant kept |
| `Db.InMemoryStore.DeleteEmployee` | db/db.go:57-66 | `true` iff `id` is a key; then exactly that key is removed, otherwise nothing changes; afterwards `id` is absent; `nextID` and handed-out ids unchanged; invariant kept |
| `Db.InMemoryStore.CollectEmployees` | db/db.go:73-76 | ranging over the map and appending yields a permutation of the stored values, as many elements as keys; nothing changes |
| `Db.InMemoryStore.ListEmployees` | db/db.go:69-90 | the collected sequence is a permutation of the stored values with as many elements as keys, and the result is its page `page` of size `pageSize`: empty when the start is at or past the number of records, otherwise `min(pageSize, len - start)` records, each a stored record under its own id and none twice; nothing changes |
| `Db.ValueBagRemove` | db/db.go:73-76 | removing any one key from a map removes exactly its value from the multiset of values, whichever key iteration picks first |
| `Db.ValueBagInsert` | db/db.go:73-76 | storing a value under a new key adds exactly that value to the multiset of values |
| `Db.ValueBagSize` | db/db.go:73-76 | a map holds as many values as keys, which is the length of the collected slice |
| `Db.ValueBagCount` | db/db.go:73-76 | in a map whose records carry their keys, a record occurs once if it is stored under its own id, and otherwise not at all |
| `Db.CollectedIsPermutation` | db/db.go:73-76 | a collected sequence of a store has one element per key, each element is the record stored under its id, no element repeats, and every stored record occurs |
| `Db.StorePages` | db/db.go:73-89 | over one collected order, a page holds only stored records, two different pages share no record, and pages 1..q with `q * pageSize >= len` together hold every stored record |
| `Pagination.PositivePageInBounds` | db/db.go:78-89 | with `page >= 1` and `pageSize >= 0` the start offset is non-negative and the slice cannot panic |
| `Pagination.Page` | db/db.go:78-89 | the page starting at `(page-1)*pageSize`: empty when the start is at or past the end, otherwise `min(pageSize, len - start)` elements, element `i` being `all[start + i]`, never more than `pageSize` |
| `Pagination.PageIsSlice` | db/db.go:78-89 | with `page >= 1` and `pageSize >= 0` a page is `all[min(start, len) .. min(start + pageSize, len)]` |
| `Pagination.AdjacentPages` | db/db.go:78-89 | pages `p` and `p + 1` of equal size, placed side by side, form one contiguous window of `all` |
| `Pagination.PagesDisjoint` | db/db.go:78-89 | two different pages of a sequence without repetitions share no element |
| `Pagination.FirstPagesArePrefix` | db/db.go:78-89 | pages 1..k of size s, one after the other, are exactly the first `min(k*s, len)` elements of `all`, in order |
| `Pagination.AllPagesCoverAll` | db/db.go:78-89 | once `k*s >= len`, pages 1..k together are all of `all` |
| `Repo.EmployeeRepo.constructor` | repo/repo.go:12-14 | the facade wraps exactly the given store object |
| `Repo.EmployeeRepo.CreateEmployee` | repo/repo.go:16-18 | same result and same effect on the wrapped store as the store's create |
| `Repo.EmployeeRepo.GetEmployeeByID` | repo/repo.go:20-22 | returns what the store's lookup returns; no effect |
| `Repo.EmployeeRepo.UpdateEmployee` | repo/repo.go:24-26 | the store's boolean and the store's effect, nothing more |
| `Repo.EmployeeRepo.DeleteEmployee` | repo/repo.go:28-30 | the store's boolean and the store's effect, nothing more |
| `Repo.EmployeeRepo.ListEmployees` | repo/repo.go:32-34 | the store's page of a permutation of the stored records, unchanged |
| `DbTests.CreateOnFreshStore` | db/db_test.go:10-21 | the first create on a new store yields id 1 and the map holds the returned record under it |
| `DbTests.GetAfterCreate` | db/db_test.go:23-35 | a lookup right after a create finds the created record |
| `DbTests.UpdateThenGet` | db/db_test.go:37-52 | updating a stored record succeeds and a later lookup shows the new position |
| `DbTests.DeleteThenGet` | db/db_test.go:54-68 | deleting a stored record succeeds and a later lookup reports it absent; an update or second delete of that id then fails |
| `DbTests.ValueBagOfTwo` | db/db_test.go:70-79 | the values of a map holding two records under their distinct ids are exactly those two records |
| `DbTests.ListTwo` | db/db_test.go:70-90 | with two records, the page of size 1 holds one of them and the page of size 2 holds exactly both |
| `RepoTests.CreateUpdateDelete` | repo/repo_test.go:15-51 | through the facade on an empty store: id 1, read back equal, update succeeds and shows, delete succeeds, absent afterwards; store left empty with `nextID == 2` |
| `RepoTests.FullSequence` | repo/repo_test.go:11-71 | the whole sequence on a new store; the two creates after the delete get ids 2 and 3 (id 1 is not reused); pages of size 1 and 2 have lengths 1 and 2, the second holding exactly the two live records |

## Left out

- The mutex of `db/db.go:11` is not modelled. Each method holds it for its whole body, so every operation is modelled as one atomic step.
- Go's concrete map iteration order is not modelled. The list loop picks keys by a such-that choice, and callers learn only that the collected sequence is a permutation of the stored records.
- Pagination across separate list calls is not modelled: each call collects its own order. The promise that page `p` and page `p + 1` do not overlap (`Db.StorePages`, `Pagination.PagesDisjoint`, `Pagination.AdjacentPages`) is proved for one collected order. The source gives no guarantee that two calls collect in the same order.
- Db.InMemoryStore.ListEmployees: requires `InBounds`, the exact condition under which `employees[start:end]` does not panic. An out-of-range start, or a negative page size when the start is not past the end, panics in Go instead of returning, and that panic is not modelled. `page >= 1 && pageSize >= 0` always meets the condition (`Pagination.PositivePageInBounds`).
- Go `int` overflow is not modelled: `nextID` and `(page-1)*pageSize` are unbounded integers.
- The mutating store methods require the store invariant, which the constructor establishes and every method keeps. A Go zero-value `InMemoryStore` (nil map, `nextID` 0) made without `NewInMemoryStore` is not modelled.
- `Salary` is a `real`. The source's `float64` is carried but never computed on, so rounding is irrelevant.
- The validation tags of the `models/employees.go` record (`required`, `gt=0`) are enforced by an external validator library; that library is not part of this model.
- The HTTP routes and their status-code mapping (`routers/routers.go`) and their tests, and the listener start-up (`server/server.go`), are not part of this model.
