# Favorites and price helpers of a React Native catalog app, in Dafny

The app browses a remote product catalog, shows a derived "price" per product,
lets the user mark favorites that persist in the device's key-value storage, and
lists the saved favorites on a second screen. Almost all of it is UI. This project
models the three pieces of pure logic underneath:

- **Price helpers** (`utils/mathUtils.tsx`): trial-division `isPrime`, the
  case-insensitive `countVowels`, `calculatePrice = 10·|title| + vowels(description)`,
  and `formatCurrency`. Module `MathUtils`. The JavaScript primitives they use
  (`toLowerCase`, the regular expression `/[aeiou]/g` with its `|| []` fallback,
  `Math.floor(Math.sqrt(n))` and `toFixed(2)`) are in module `JsBuiltins`.
- **Price sorter** (`utils/sortingUtils.tsx`): `sortProductsByPrice` sorts a copy
  of the list by derived price, `"asc"` (the default) or `"desc"`. The stable
  `Array.prototype.sort`, called with a key-difference comparator, is module
  `StableSort`. The instance for products is module `SortingUtils`.
- **Favorites store** (`context/FavoritesContext.tsx`): the reducer with its two
  actions `SET_FAVORITES` and `TOGGLE_FAVORITE`, `isFavorite`, the initial state
  (no favorites, `loading` true), and the provider's two effects. The load effect
  runs on mount. The save effect runs after every state change and writes only
  once `loading` is false. Module `FavoritesContext` models these as a `Provider`
  value stepped by `Event`s over one storage slot. `JSON.stringify`/`JSON.parse`
  stay abstract (`Json`).
- **Saved screen** (`app/saved.tsx`): its private copies of the four helpers are
  modelled as written and proved to agree with `MathUtils`. Its prime badge uses
  the 0-based row index, while the feed (`app/index.tsx:63`) uses `index + 1`. Module
  `SavedScreen` records both conventions and how they differ, without choosing one.

`Product` (module `Types`) and `Option` (module `Wrappers`) are shared.

Three behaviours of the code are easy to overlook. The model follows the code:

- After the load completes, `loading` is false, so the save effect fires once
  straight away. A malformed stored value is therefore not just ignored: it is
  overwritten with the text of the empty list (`MalformedStorageLoadsEmpty`).
- The toggle round trip holds exactly only when starting from a state without the
  id (`ToggleTwiceRestores`). When the id is present, toggling twice moves the item
  to the end (`ToggleTwiceFromPresent`).
- The sort is fully stable, in both directions: ECMAScript requires
  `Array.prototype.sort` to be stable. So `"desc"` is not the reversal of `"asc"`
  when prices tie.

## Model

| member | source | states |
|---|---|---|
| MathUtils.IsPrime | utils/mathUtils.tsx:4-14 | for every integer n, the result is true exactly when n is prime: n ≥ 2 and no d with 2 ≤ d < n divides n |
| MathUtils.NoOddDivisor | utils/mathUtils.tsx:10-13 | the trial-division loop returns true exactly when no odd candidate from i up to the limit divides n |
| MathUtils.TrialDivisionSound | utils/mathUtils.tsx:9-13 | a prime never has an odd trial divisor between 3 and its integer square root, so the loop never rejects a prime |
| MathUtils.TrialDivisionComplete | utils/mathUtils.tsx:9-13 | an odd number with no odd trial divisor up to its integer square root has no proper divisor at all |
| MathUtils.TrialDivisionDecides | utils/mathUtils.tsx:9-13 | for odd n ≥ 3, testing only the odd numbers 3 … ⌊√n⌋ is sound and complete: it finds a divisor exactly when n is not prime |
| MathUtils.OddCompositeHasSmallOddDivisor | utils/mathUtils.tsx:9-13 | a non-prime odd n has an odd divisor between 3 and ⌊√n⌋, which is why the loop may stop at the square root |
| MathUtils.IsPrimeEarlyExits | utils/mathUtils.tsx:5-7 | false for every n < 2, true for 2, false for every even n > 2 |
| JsBuiltins.FloorSqrt | utils/mathUtils.tsx:9 | the limit r is the integer square root: r² ≤ n < (r+1)² |
| JsBuiltins.ToLowerCase | utils/mathUtils.tsx:18 | the lower-cased text has the same length and maps each character through the ASCII case mapping |
| JsBuiltins.VowelMatches | utils/mathUtils.tsx:18 | the global match of `[aeiou]`: never longer than the text, only vowels, and empty exactly when the text has no lower-case vowel |
| JsBuiltins.MatchVowels | utils/mathUtils.tsx:18 | the match is null exactly when the text has no lower-case vowel; otherwise it is the non-empty list of the vowels, in order |
| MathUtils.CountVowels | utils/mathUtils.tsx:17-18 | the count is between 0 and the length of the text |
| MathUtils.CountVowelsAppend | utils/mathUtils.tsx:18 | the count of s + t is the count of s plus the count of t, and the empty string counts 0 |
| MathUtils.CountVowelsCaseInsensitive | utils/mathUtils.tsx:18 | lower-casing or upper-casing the text leaves the count unchanged |
| MathUtils.CountVowelsCountsVowelLetters | utils/mathUtils.tsx:17-18 | the count equals the number of occurrences of the ten letters a e i o u A E I O U |
| MathUtils.CountVowelsPermutationInvariant | utils/mathUtils.tsx:18 | two texts with the same characters in any order have the same count |
| MathUtils.CalculatePrice | utils/mathUtils.tsx:21-25 | 10 × (title length) ≤ price ≤ 10 × (title length) + (description length) |
| MathUtils.CalculatePriceMeaning | utils/mathUtils.tsx:21-25 | the price is 10 per title character plus the number of vowel letters of the description; ("", "") costs 0; extending the description adds exactly the extension's vowels |
| JsBuiltins.DecimalString | utils/mathUtils.tsx:29 | the digits form a canonical decimal numeral (no leading zero) whose value is n |
| JsBuiltins.ToFixed2 | utils/mathUtils.tsx:29 | for an integer n, the text is the numeral of n followed by ".00" |
| JsBuiltins.DecimalStringOfValue | utils/mathUtils.tsx:29 | every canonical numeral is the rendering of its own value, so the rendering is one-to-one |
| MathUtils.FormatCurrency | utils/mathUtils.tsx:28-29 | the text is "$", then the canonical decimal numeral of the amount, then ".00" |
| MathUtils.FormatCurrencyRoundTrip | utils/mathUtils.tsx:28-29 | parsing the formatted amount gives the amount back, and every string the parser accepts is the formatting of what it reads |
| MathUtils.FormatCurrencyZero | utils/mathUtils.tsx:28-29 | the amount 0 renders as "$0.00" |
| StableSort.Insert | utils/sortingUtils.tsx:14 | inserting into a list adds exactly one element (its order and contents are stated by InsertPermutes and InsertSorted) |
| StableSort.Sort | utils/sortingUtils.tsx:14 | the sort keeps the length of the list (its contents, order and stability are stated by the lemmas below) |
| StableSort.InsertPermutes | utils/sortingUtils.tsx:14 | inserting x adds exactly one copy of x and keeps every other element with its multiplicity |
| StableSort.InsertSorted | utils/sortingUtils.tsx:14 | inserting into a key-sorted list keeps it key-sorted |
| StableSort.SortPermutesAndOrders | utils/sortingUtils.tsx:14-18 | the sorted list has the same elements with the same multiplicities, and keys never decrease along it |
| StableSort.SortIsStable | utils/sortingUtils.tsx:14-18 | for every key value, the elements with that key appear in the result in their input order |
| StableSort.SortOfSorted | utils/sortingUtils.tsx:14-18 | a list already ordered by key is returned unchanged |
| StableSort.SortIsUnique | utils/sortingUtils.tsx:14-18 | any key-ordered list that keeps every key class in input order is the sort's result, so the result is fully determined |
| SortingUtils.Compare | utils/sortingUtils.tsx:15-17 | the comparator is zero exactly on equal prices, and negative exactly when a is cheaper ("asc") or dearer ("desc") than b |
| SortingUtils.SortKey | utils/sortingUtils.tsx:15-17 | the comparator (priceA − priceB for "asc", priceB − priceA for "desc") is a difference of keys |
| SortingUtils.SortProductsByPrice | utils/sortingUtils.tsx:10-20 | the result is a permutation of the input; with "asc" prices never decrease along it, with "desc" they never increase |
| SortingUtils.SortedCopy | utils/sortingUtils.tsx:14 | the sort works on a new array; the input array keeps its contents |
| SortingUtils.DefaultOrderIsAscending | utils/sortingUtils.tsx:12 | omitting the order sorts exactly as "asc" does, so prices never decrease along the result |
| SortingUtils.SortProductsByPriceIsStable | utils/sortingUtils.tsx:14-18 | products with the same price keep their input order, in both directions |
| SortingUtils.SortProductsByPriceIdempotent | utils/sortingUtils.tsx:14-18 | a list already in order comes back unchanged, so sorting twice equals sorting once |
| SortingUtils.SortProductsByPriceIsUnique | utils/sortingUtils.tsx:14-18 | the result is the only ordered arrangement that keeps each price class in input order |
| FavoritesContext.Find | context/FavoritesContext.tsx:43-45 | nothing is found exactly when no favorite has the id; what is found carries the id and is the FIRST favorite carrying it (no earlier favorite has the id) |
| FavoritesContext.FirstWithIdCons | context/FavoritesContext.tsx:43-45 | a product without the id put in front does not change which product is the first to carry it |
| FavoritesContext.RemoveId | context/FavoritesContext.tsx:48-50 | the filter never lengthens the list (its contents and order are stated by the RemoveId lemmas below) |
| FavoritesContext.RemoveIdDropsId | context/FavoritesContext.tsx:48-50 | after the filter no favorite carries the id |
| FavoritesContext.RemoveIdKeepsOrder | context/FavoritesContext.tsx:48-50 | the filter's result is a subsequence of its input: the relative order of what stays is kept |
| FavoritesContext.RemoveIdCounts | context/FavoritesContext.tsx:48-50 | every product not carrying the id is kept with its multiplicity; products carrying it occur 0 times |
| FavoritesContext.RemoveIdWithoutId | context/FavoritesContext.tsx:48-50 | a list without the id passes through the filter unchanged |
| FavoritesContext.Reducer | context/FavoritesContext.tsx:38-59 | SET_FAVORITES p yields favorites p and loading false; TOGGLE_FAVORITE keeps loading, flips whether the item's id is a favorite, and leaves every other id's membership as it was |
| FavoritesContext.ToggleAbsentAppends | context/FavoritesContext.tsx:51-54 | toggling an absent id grows the list by one: the old list is an unchanged prefix and the item is last |
| FavoritesContext.TogglePresentRemoves | context/FavoritesContext.tsx:47-50 | toggling a present id removes every product with it, keeps the rest in order and multiplicity, and with unique ids removes exactly one |
| FavoritesContext.RemoveOnlyOccurrence | context/FavoritesContext.tsx:48-50 | when x is the only product with its id, filtering that id out of before, x, after leaves exactly before followed by after |
| FavoritesContext.RemoveUniqueId | context/FavoritesContext.tsx:48-50 | with unique ids, filtering out the id of position i removes exactly that position |
| FavoritesContext.ToggleKeepsIdsUnique | context/FavoritesContext.tsx:42-55 | toggling preserves "no two favorites share an id" |
| FavoritesContext.ToggleTwiceRestores | context/FavoritesContext.tsx:42-55 | from a state without the id, toggling twice restores exactly the original state, and isFavorite flips on each toggle |
| FavoritesContext.ToggleTwiceFromPresentAnyIds | context/FavoritesContext.tsx:42-55 | from any state holding the id, duplicates allowed, toggling twice drops every product with the id and appends the item once at the end |
| FavoritesContext.ToggleTwiceFromPresent | context/FavoritesContext.tsx:42-55 | from a state with the id at position i, toggling twice removes position i and appends the item at the end |
| FavoritesContext.IsFavorite | context/FavoritesContext.tsx:102-104 | `some` answers true exactly when `find` finds a favorite with the id |
| FavoritesContext.InitialStateSavesNothing | context/FavoritesContext.tsx:29-32 | the initial state is loading with no favorites, so no id is a favorite and the save effect's first run writes nothing |
| FavoritesContext.LoadAction | context/FavoritesContext.tsx:71-82 | a failed read, a missing key, an empty stored string or unparsable text loads the empty list; text that parses to p loads p |
| FavoritesContext.SaveEffect | context/FavoritesContext.tsx:89-95 | a write is issued exactly when loading is false, and it is the text of the current favorites |
| FavoritesContext.Mount | context/FavoritesContext.tsx:66 | a freshly mounted provider is loading, holds no favorite, has written nothing and sees the slot as it was |
| FavoritesContext.Step | context/FavoritesContext.tsx:66-96 | one dispatch followed by the save effect: the write log only grows, by one write exactly when the new state is not loading; a completed load ends loading for good; the slot changes only to the latest write, and only when that write lands |
| FavoritesContext.Run | context/FavoritesContext.tsx:66-96 | over a run of events the write log only grows, by at most one write per event; once any load has completed, the provider is no longer loading |
| FavoritesContext.NoWriteBeforeLoad | context/FavoritesContext.tsx:89-95 | while the load is pending, toggles issue no write and leave the stored text alone |
| FavoritesContext.ReadyStaysReady | context/FavoritesContext.tsx:89-95 | once loaded, the provider never returns to loading and every later event writes the favorites it leaves |
| FavoritesContext.LoadSupersedesEarlyToggles | context/FavoritesContext.tsx:69-86 | toggles made before the load completes are discarded: afterwards the favorites are exactly what the stored text loads as |
| FavoritesContext.MalformedStorageLoadsEmpty | context/FavoritesContext.tsx:71-95 | unparsable stored text loads as no favorites, and the write-back replaces it with the text of the empty list |
| FavoritesContext.ToggleSurvivesReload | context/FavoritesContext.tsx:89-95 | after a toggle while ready, a fresh provider loading the same slot sees the toggled favorites, given that JSON round-trips them |
| FavoritesContext.EmptyStorageScenario | context/FavoritesContext.tsx:98-104 | from empty storage, the load gives no favorites; toggling id 1 makes it a favorite, and toggling again restores the loaded state |
| SavedScreen.IsPrime | app/saved.tsx:15-24 | the saved screen's copy returns the same answer as MathUtils.IsPrime on every integer |
| SavedScreen.CountVowels | app/saved.tsx:26-27 | the copy agrees with MathUtils.CountVowels on every string |
| SavedScreen.CalculatePrice | app/saved.tsx:29-30 | the copy agrees with MathUtils.CalculatePrice on every pair of strings |
| SavedScreen.FormatCurrency | app/saved.tsx:32-33 | the copy agrees with MathUtils.FormatCurrency on every non-negative integer |
| SavedScreen.RenderRow | app/saved.tsx:50-53 | a row is badged exactly when its 0-based index is prime, and its price label reads back as the product's price |
| SavedScreen.BadgeIndexMismatch | app/saved.tsx:51 | with 0-based indices rows 0 and 1 are never badged and row 2 is; the feed badges row 1; a saved row is badged exactly when the feed row before it is; only row 2 is badged on both screens |

## Left out

- Rendering, animation, swipe gestures, navigation and the feed's remote `fetch`
  (`app/index.tsx`, `app/detail.tsx`, `app/_layout.tsx`) are UI and network I/O.
- The feed's swipe-to-delete filter (`app/index.tsx:174`) is left out. It acts on
  the feed's own product list, not on favorites, and has the same shape as `RemoveId`.
- `useFavorites` throwing outside its provider, and the provider's rendering, are
  React plumbing.
- Serialisation is left out. `JSON.stringify`/`JSON.parse` are abstract functions,
  and a parse that throws is `None`. A stored `"null"` or a non-array would reach
  the reducer unchecked in the app. The model's parse result is always a product
  list, so those cases are outside it.
- `AsyncStorage` is one slot holding text or nothing. A read either fails or
  returns the slot. A write lands or is dropped (a rejected `setItem` is only
  logged).
- React's effect scheduling is not modelled. The save effect runs after every
  dispatch. The model does not batch several dispatches into one effect run. Ordering
  of overlapping asynchronous `setItem` calls (last write wins) is concurrency.
- The reducer's `default` branch cannot be reached with the two typed actions.
- `SET_FAVORITES` does not check for duplicate ids. Unique ids are proved preserved
  by toggling only. A stored list is trusted as it is.
- MathUtils.IsPrime: modelled on integers only. JavaScript numbers can be
  fractional (`isPrime(2.5)` returns true), and integers beyond 2^53 are not exact.
  `Math.sqrt` is floating point. The model uses the exact integer square root; near
  2^53 the float can round up by one. That only adds a candidate below n and cannot
  change the answer, but this is not proved.
- MathUtils.CountVowels: case mapping is ASCII only. Full Unicode `toLowerCase` can
  produce an ASCII vowel from a non-ASCII letter (U+0130 becomes "i" followed by a
  combining dot), and such letters are not counted here.
- MathUtils.CalculatePrice: `title.length` counts UTF-16 code units. The model
  counts characters, which differs only for characters outside the Basic
  Multilingual Plane.
- MathUtils.FormatCurrency: defined on non-negative integers only, which is all
  `calculatePrice` produces. Rounding by `toFixed` on fractional or negative numbers
  is floating point.
- JsBuiltins.ToFixed2 / MathUtils.FormatCurrency: the digits-then-".00" rendering
  holds only for amounts below 10^21 that JavaScript represents exactly (at most
  2^53). From 10^21 on, `toFixed` returns the exponent form (`"1e+21"`), and above
  2^53 the number has already been rounded. The model renders every natural number
  the same way. `calculatePrice` stays far below both bounds for any realistic text.
