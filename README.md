# baby_names — a Dafny model of `run`

The command asks the US Social Security Administration's popular-names service
for one ranking page per year and prints the deduplicated, sorted names for one
sex. `main.go` is one function, `run`. This project models what `run` does
once the network and the HTML library are taken out:

- **flag checks** (`Flags`): `-sex` picks the cell column (`"boy"` → 1, `"girl"` → 2).
  An empty or unknown `-sex` fails. A `-top` outside {20, 50, 100, 500, 1000} fails.
  `-sex` is checked first.
- **extraction** (`Extract`): a page is a sequence of tables. Each table has an optional
  `summary` attribute and the texts of its `td` cells. Only tables whose summary is
  exactly `"Popularity for top <top>"` are read. From each one, the cells whose index
  modulo 3 equals the column are taken verbatim. All matching tables are read.
  `fmt.Sprintf("%d")` is modelled by `Decimal`.
- **year loop** (`Years`): one request per year from `-yearstart` to `-yearend`
  inclusive. The service is a parameter `fetch(year, top)`, whose answer may be a
  transport error, a non-200 status or an unreadable body; each one ends the run with
  that error. The name map is a `set<string>`.
- **listing** (`Listing`, `BabyNames`): an empty set is the error "no names found".
  Otherwise the set is copied into an array through a running index, then sorted in
  place. The result is strictly ascending, has no repeats and holds exactly the
  set's names. `StringOrder` is the order Go compares strings by.

`BabyNames.Run` returns the list that `main` prints, one name per line, or the error
that `main` prints instead. `Errors.Message` gives the exact text of each error.

## Model

| member | source | states |
|---|---|---|
| Flags.TableMod | main.go:29-39 | `"boy"` gives column 1 and `"girl"` column 2; `""` gives "-sex is a required flag"; any other string gives "Unknown value for -sex"; each case holds in both directions |
| Flags.Validate | main.go:29-43 | succeeds exactly when sex is boy/girl and top is one of 20, 50, 100, 500, 1000; a bad sex is reported whatever top is; a good sex with a bad top gives the "top must be" error |
| Decimal.FromNat | main.go:66 | the `%d` text of a natural is a non-empty string of digits without a leading zero |
| Decimal.RoundTrip | main.go:66 | reading back the digits `FromNat` writes gives the number again |
| Decimal.FromInt | main.go:66 | the `%d` text of a non-negative integer is digits without a leading zero whose value is that integer; a negative one is `-` followed by such digits for its magnitude |
| Decimal.FromIntInjective | main.go:66 | different integers get different `%d` texts |
| Extract.SummaryOfTopSizes | main.go:66 | the expected summary `Extract.Summary` gives is exactly "Popularity for top 20", "… 50", "… 100", "… 500" and "… 1000" for the five sizes |
| Extract.SummaryDeterminesTop | main.go:66 | two top sizes with the same expected summary are equal, so a table for another size is never read |
| Extract.CellNamesMembership | main.go:70-75 | a text is taken from a table exactly when some cell at index i with i % 3 == column holds it, unchanged |
| Extract.PageNamesMembership | main.go:65-76 | a page yields a name exactly when some table whose summary is present and equal to the expected text holds it at an index ≡ column (mod 3); other tables and cells add nothing |
| Extract.EveryMatchingTableContributes | main.go:65-76 | every matching table's selected cells are in the page's names, not only the first table's |
| Extract.TwoRowExample | main.go:65-76 | on a top-20 table with cells 1, Noah, Emma, 2, Liam, Olivia, boy gives {Noah, Liam}, girl gives {Emma, Olivia}, and top 50 gives nothing |
| Extract.AddCellNames | main.go:70-75 | the inner `Each` loop adds exactly the table's selected cell texts to the name set |
| Extract.AddPageNames | main.go:65-76 | the outer `Each` loop adds exactly the page's names to the name set |
| Years.PageOf | main.go:51-63 | a response gives a page exactly when the request succeeded, the status is 200 and the body parsed; a failed request returns its error; another status gives "Found error code <status>"; a 200 whose body does not parse gives the parser's error |
| Years.EmptyRange | main.go:46 | when yearStart > yearEnd the loop runs zero times and the set is empty |
| Years.YearNamesUnion | main.go:45-77 | the loop succeeds exactly when every year's page is read; the set is then the union of the names of the years yearStart..yearEnd |
| Years.FirstFailureReported | main.go:46-63 | on failure the error is that of the earliest failing year, and all years before it were read |
| Years.CollectNames | main.go:45-77 | the year loop returns the union of the years' names, or the first failure |
| Listing.FillList | main.go:82-87 | the filled array has one slot per set element and holds each set element exactly once (as multisets) |
| Listing.OnceEach | main.go:82-87 | an array holding a set's elements once each has no repeats, the same elements and the set's size |
| Listing.SortStrings | main.go:89 | in-place sort: each element is at most the next one, and the array is a permutation of what it was |
| Listing.SortedDistinctAscending | main.go:89 | a sorted list without repeats is strictly ascending |
| Listing.AscendingListingUnique | main.go:82-89 | two strictly ascending lists with the same elements are equal |
| StringOrder.LessIrreflexive | main.go:89 | no string sorts before itself |
| StringOrder.LessTransitive | main.go:89 | the string order is transitive |
| StringOrder.LessTotal | main.go:89 | of two different strings one sorts before the other |
| StringOrder.LessAsymmetric | main.go:89 | two strings never sort before each other both ways |
| Errors.Message | main.go:36-79 | the text printed for each error: the errors `run` raises itself have non-empty texts, and a bad status prints "Found error code " followed by the status |
| Errors.MessagesDistinct | main.go:36-79 | the errors `run` raises itself (missing sex, unknown sex, bad top, bad status, no names) print pairwise different texts |
| BabyNames.Names | main.go:78-80 | a name set the run lists is never empty |
| BabyNames.Run | main.go:21-94 | when `Names` gives an error the run fails with that error; otherwise it returns a strictly ascending list holding exactly the collected names |
| BabyNames.FlagsCheckedFirst | main.go:29-46 | with a bad flag the run fails with that flag's error, whatever the service would answer |
| BabyNames.ReversedRangeFindsNothing | main.go:45-80 | valid flags with yearStart > yearEnd end with "no names found" |
| BabyNames.NamesAreUnionOfYears | main.go:45-80 | with valid flags and every page read, the listed names are exactly those some year yields, and an empty union gives "no names found" |
| BabyNames.ListingDeterministic | main.go:82-89 | the listing is non-empty and fixed by the name set, whatever order the map is walked in |

## Left out

- The HTTP request: building the form, the POST and the client (main.go:47-51). `fetch(year, top)` stands for the service's answer.
- The response bodies are closed by deferred calls (main.go:58). All of them stay open until `run` returns, and a body with a non-200 status is never closed. Closing is not modelled.
- HTML parsing and the goquery traversal (main.go:60-75): a page is given as its tables, their `summary` attribute and their cell texts. `Years.Body.Unreadable` stands for a parser error.
- Flag parsing and the defaults (main.go:22-27): the four values are parameters.
- Printing (main.go:16-18, 90-92): `Run` returns the lines `main` would print. `Errors.Message` gives each error's text. `main` prints the error and exits normally.
- `sort.Strings` internals: `Listing.SortStrings` is an insertion sort with the same contract, not Go's pattern-defeating quicksort.
- Bytes: Go strings are byte strings compared byte by byte. Names here are sequences of Unicode characters compared by code point. This is the same order on valid UTF-8, and invalid UTF-8 is not modelled.
- The year counter is a Go `int`, 32 or 64 bits wide depending on the platform. With `-yearend` at the largest `int` the guard `year <= yearEnd` never fails and `year++` wraps, so the loop then ends only on a failed request. Dafny integers are unbounded, so this is not modelled.
- The order of Go's map iteration is random. `Listing.FillList` models it as an arbitrary choice of the next unvisited key.
- The name map is a local that the `Each` callbacks update in place. Here it is a set value passed into each loop and returned updated. Nothing else holds the map, so no aliasing is lost.
