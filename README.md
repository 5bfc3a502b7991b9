# GoFinances dashboard: the transaction list controller

This project models the logic of the dashboard page of a small personal-finance
web client (`src/pages/Dashboard/index.tsx`). The page holds three pieces of
state: the list of transactions, the balance snapshot, and a four-slot
"active column" indicator. Clicking one of the four table headers calls
`orderBy`. That picks a three-way comparator from the header's key, sorts the
list in place with `Array.prototype.sort` and lights that header's indicator.

Modules:

- `Ledger` (ledger.dfy): the `Transaction`, `Category` and `Balance` records.
- `JsString` (js_string.dfy): JavaScript's `<` on strings, with the lemmas that
  make it a strict total order.
- `Comparators` (comparators.dfy): `compareTitle`, `compareValue`,
  `compareCategory` and `compareDate`, each as the source writes it.
- `Sorting` (sorting.dfy): the stable array sort. `InsertionSort` is a function
  that specifies the result. `Sort` is an in-place method over an `array`,
  proved to produce exactly that result. Lemmas show the result is a
  permutation, is sorted for a consistent comparator, and is stable.
- `Dashboard` (dashboard.dfy): the mapping from key to column, the indicator,
  the initial state, the amount-cell sign, and the `Controller` class. The
  class has the `transactions`, `balance` and `active` fields and the
  `OrderBy` method.

The model follows the code as written. Two behaviours may look like slips, but
they are reproduced:

- `compareCategory` compares the `category` objects themselves.
- `compareDate` does the same thing and never reads `created_at`.

In JavaScript, `<` and `>` on two plain objects first turn each into the same
text, `"[object Object]"`. So neither test ever holds, and both comparators
return 0 for every pair. The model writes out that conversion
(`Comparators.ToPrimitive`) and proves the result is always 0. Because the sort
is stable, sorting with these keys leaves the list as it was. A design that
compares `category.title` and `created_at` would behave differently; this model
does not.

The source's keys are `'title'`, `'price'` and `'category'`. Every other key
falls to the last branch. That includes `'date'`, the key the fourth header
sends.

Other modelling choices:

- The `type` field is called `kind`, because `type` is a Dafny keyword.
- The interface's `formattedValue` and `formattedDate` fields are not part of
  `Transaction`. The dashboard never reads or writes them.
- `value` is an integer.
- `created_at` is kept as the text the cache and the service deliver.
- React's `setActive` and `setTransactions` are modelled as direct field
  updates on the `Controller`. `setActive` installs a new four-element array;
  the model writes the four slots of the existing one, with the same contents.
- `Array.prototype.sort` must be stable. With a consistent comparator, a stable
  sort has only one possible result, so it is modelled as an insertion sort.
- `localStorage.getItem` becomes an `Option<string>` argument.
- `JSON.parse` becomes a function argument `parse`.

## Model

| member | source | states |
|---|---|---|
| `JsString.LessIrreflexive` | src/pages/Dashboard/index.tsx:79-87 | no string is `<` itself, which is why comparing two objects' shared text never orders them |
| `JsString.LessTrichotomy` | src/pages/Dashboard/index.tsx:61-69 | for any two titles exactly one of `a < b`, `a == b`, `b < a` holds |
| `JsString.LessTransitive` | src/pages/Dashboard/index.tsx:61-69 | the string order used for titles is transitive |
| `Comparators.CompareTitle` | src/pages/Dashboard/index.tsx:61-69 | returns -1 exactly when the left title is smaller, 1 exactly when it is larger, 0 exactly when the titles are equal |
| `Comparators.CompareValue` | src/pages/Dashboard/index.tsx:70-78 | returns -1, 0 or 1 exactly when the left amount is smaller, equal or larger |
| `Comparators.CompareCategory` | src/pages/Dashboard/index.tsx:79-87 | comparing the category objects returns 0 for every pair of transactions |
| `Comparators.CompareDate` | src/pages/Dashboard/index.tsx:88-96 | the date comparator returns 0 for every pair and agrees with the category comparator |
| `Comparators.CompareDateIgnoresCreatedAt` | src/pages/Dashboard/index.tsx:88-96 | changing either transaction's creation date never changes the date comparator's answer |
| `Comparators.CompareTitleConsistent` | src/pages/Dashboard/index.tsx:61-69 | the title comparator is antisymmetric and transitive, so it is a total preorder as the sort requires |
| `Comparators.CompareValueConsistent` | src/pages/Dashboard/index.tsx:70-78 | the amount comparator is a total preorder |
| `Comparators.AllTiedIsSorted` | src/pages/Dashboard/index.tsx:79-96 | under the category or date comparator, every list is already in order |
| `Sorting.Sort` | src/pages/Dashboard/index.tsx:101-110 | the in-place sort leaves the array holding exactly the stable insertion sort of its old contents |
| `Sorting.InsertAt` | src/pages/Dashboard/index.tsx:101-110 | one pass of the sort moves one element into the sorted prefix and leaves the rest of the array alone |
| `Sorting.SortPermutes` | src/pages/Dashboard/index.tsx:101-110 | the sorted list has the same multiset of elements as the input |
| `Sorting.SortIsSorted` | src/pages/Dashboard/index.tsx:101-110 | with a consistent comparator, every pair in the result is in ascending order |
| `Sorting.SortIsStable` | src/pages/Dashboard/index.tsx:101-110 | with a consistent comparator, the elements tied with any given element keep their input order |
| `Sorting.SortKeepsSorted` | src/pages/Dashboard/index.tsx:101-110 | a list already in order comes out of the sort unchanged |
| `Dashboard.ColumnOf` | src/pages/Dashboard/index.tsx:99-111 | `'title'`, `'price'` and `'category'` each pick their own branch, and every other key (including `'date'`) picks the last branch |
| `Dashboard.HeaderKey` | src/pages/Dashboard/index.tsx:166-197 | header `i` sends the key whose column owns indicator slot `i` |
| `Dashboard.ComparatorFor` | src/pages/Dashboard/index.tsx:99-110 | the title column's comparator says "before" exactly when the title is JS-smaller, the price column's exactly when the amount is smaller, and the category and date columns' comparators tie every pair |
| `Dashboard.Indicator` | src/pages/Dashboard/index.tsx:99-111 | after a sort exactly one of the four slots is set: slot 0 for title, 1 for price, 2 for category, 3 for any other key |
| `Dashboard.HeaderLightsItself` | src/pages/Dashboard/index.tsx:166-197 | clicking header `i` lights exactly indicator `i`, the one that header displays |
| `Dashboard.ComparatorConsistent` | src/pages/Dashboard/index.tsx:99-111 | all four comparators the headers can select are total preorders |
| `Dashboard.OrderedPermutes` | src/pages/Dashboard/index.tsx:97-112 | sorting by any key keeps the length and the multiset of transactions, so no transaction or field changes |
| `Dashboard.OrderedByTitle` | src/pages/Dashboard/index.tsx:99-101 | after sorting by `'title'` the titles are non-decreasing |
| `Dashboard.OrderedByPrice` | src/pages/Dashboard/index.tsx:102-104 | after sorting by `'price'` the amounts are non-decreasing |
| `Dashboard.OrderedIsStable` | src/pages/Dashboard/index.tsx:97-112 | for every key, transactions the chosen comparator ties keep their relative order |
| `Dashboard.OrderedByOtherKeyKeepsOrder` | src/pages/Dashboard/index.tsx:105-110 | sorting by `'category'`, `'date'` or any key other than `'title'` and `'price'` leaves the list order unchanged |
| `Dashboard.InitialTransactions` | src/pages/Dashboard/index.tsx:33-41 | the starting list is empty when there is no cached text or it is empty, and the parsed cached list otherwise |
| `Dashboard.SignPrefix` | src/pages/Dashboard/index.tsx:206 | the sign is `"-"` exactly for outcome transactions and empty for income |
| `Dashboard.AmountText` | src/pages/Dashboard/index.tsx:205-212 | an amount cell starts with `-` exactly for outcome transactions, starts with a space for income, and ends with the formatted amount |
| `Dashboard.Controller.constructor` | src/pages/Dashboard/index.tsx:33-43 | mounting starts from the initial list, no balance, and an all-false indicator |
| `Dashboard.Controller.ApplySnapshot` | src/pages/Dashboard/index.tsx:54-56 | a completed fetch replaces the list and the balance wholesale and leaves the indicator alone |
| `Dashboard.Controller.OrderBy` | src/pages/Dashboard/index.tsx:97-113 | sorts the given array in place into the stable ascending order of the key's comparator, makes it the displayed list, sets the indicator for the key, leaves the balance alone, and ignores `order` |

## Left out

- The `api.get('/transactions')` request and the `useEffect` that starts it (lines 45-59) involve network I/O and React scheduling. Only the effect of a successful completion is modelled, as `ApplySnapshot`. A failed request is not modelled.
- The two `localStorage.setItem` writes on fetch completion (lines 50-55) are browser storage. They are not modelled.
- `JSON.parse` and `JSON.stringify` are library serialisation. `parse` is a total function argument, so the exception `JSON.parse` throws on corrupt text is not modelled.
- The initial balance `{} as Balance` has undefined fields. It is modelled as `None`.
- `Number(...)`, `toLocaleString` and `toLocaleDateString` (lines 126-157 and 206-218) are locale-dependent floating-point formatting. `AmountText` takes the formatted amount as an argument.
- `JsString.Less` compares Dafny characters, which are Unicode scalar values. JavaScript compares UTF-16 code units, and the two orders differ only for characters outside the Basic Multilingual Plane.
- `Comparators.CompareValue` compares integers, not IEEE-754 doubles. NaN and fractional amounts are not modelled.
- The `console.log(transactions[0].category.title)` at line 114 runs during rendering and crashes on an empty list. It is not logic of the controller and is not modelled.
- The JSX rendering, icons and `Header` are presentation only.
- `src/pages/Import/index.tsx` (file upload, HTTP POST, navigation) is not part of this model.
