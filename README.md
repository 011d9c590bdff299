# DogTable breed search, modelled in Dafny

The DogTable view loads a page of dog images from The Dog API and shows them in a
two-column table: breed and image. A search field narrows the table by breed. On every
render the view computes the shown list from the stored records and the search string.
An empty search shows every record. Any other search keeps, in their original order,
the records whose first breed name, lower-cased, contains the lower-cased search string.
Each row's breed cell shows the first breed's name, or "Unknown Breed" when the record
has no breed or its first breed's name is the empty string (JavaScript's `||` treats
`""` as false). The image's alt text follows the same rule with "Dog" as the fallback.

This project models that logic as pure Dafny functions and proves its properties as
lemmas:

- `js_string.dfy` (module `JsString`) holds the two JavaScript string operations the
  filter calls: `toLowerCase`, restricted to ASCII, and `includes`. `includes` is a
  left-to-right scan. It is proved equal to "the needle occurs at some position".
- `dog_table.dfy` (module `DogTable`) holds the records (`Dog`, `Breed`), the filter
  predicate (`Matches`), `dogs.filter` (`Filter`), `getFilteredDogs` (`FilteredDogs`),
  the label rule (`Label`, `BreedCell`, `AltText`) and the rendered rows (`Rows`).
  Optional chaining `dog.breeds[0]?.name` is modelled as an `Option`. The JavaScript
  `||` fallback is `OrElse`, where both undefined and `""` count as falsy.

## Model

| member | source | states |
|---|---|---|
| JsString.LowerChar | src/components/DogTable.jsx:66 | lower-casing one character never yields an upper-case ASCII letter; A-Z map to the matching a-z and every other character is unchanged |
| JsString.Lower | src/components/DogTable.jsx:66 | `toLowerCase` keeps the length, maps each character through LowerChar and leaves no upper-case ASCII letter |
| JsString.LowerIdempotent | src/components/DogTable.jsx:66 | lower-casing an already lower-cased string changes nothing |
| JsString.LowerEmpty | src/components/DogTable.jsx:63-66 | a string lower-cases to "" exactly when it is "" |
| JsString.Includes | src/components/DogTable.jsx:66 | `includes` is true exactly when the needle occurs at some position of the haystack |
| JsString.IncludesBounds | src/components/DogTable.jsx:66 | every string includes ""; a needle is found only in a haystack at least as long |
| DogTable.Matches | src/components/DogTable.jsx:66 | a record the predicate keeps has a first breed whose name is at least as long as the query; under the empty query the predicate would keep exactly the records that have a breed |
| DogTable.Filter | src/components/DogTable.jsx:65-67 | the filtered list is never longer than the input and holds exactly the input records that satisfy the predicate |
| DogTable.KeptIndices | src/components/DogTable.jsx:65-67 | the positions of the matching records form a strictly increasing list of valid positions that includes every matching position |
| DogTable.FilterSelectsKeptIndices | src/components/DogTable.jsx:65-67 | the filter returns, one for one and in order, the records at the matching positions |
| DogTable.FilteredDogs | src/components/DogTable.jsx:61-68 | the shown list is never longer than the records; a record is in it exactly when it is a record and the query is empty or the record matches; under a non-empty query every shown record has a named first breed |
| DogTable.FilteredDogsIsSubsequence | src/components/DogTable.jsx:61-68 | for every query the shown list is an order-preserving subsequence of the records and is no longer |
| DogTable.FilteredDogsIsKeptRecords | src/components/DogTable.jsx:65-67 | for a non-empty query the shown list is exactly the records at the positions whose first breed name, lower-cased, includes the lower-cased query |
| DogTable.EmptyQueryKeepsAll | src/components/DogTable.jsx:63 | the empty query shows the record list unchanged and one row per record |
| DogTable.ShownIff | src/components/DogTable.jsx:61-68 | a record is shown exactly when it is in the list and either the query is empty or it has a first breed whose lower-cased name includes the lower-cased query |
| DogTable.NoBreedShownOnlyForEmptyQuery | src/components/DogTable.jsx:63-66 | a record without breeds is shown for the empty query and hidden for every non-empty one |
| DogTable.FilterCaseInsensitive | src/components/DogTable.jsx:66 | two queries with the same lower-case form keep the same records |
| DogTable.FilteredDogsCaseInsensitive | src/components/DogTable.jsx:61-68 | two queries with the same lower-case form give the same shown list and the same rows, early return included |
| DogTable.LabMatchesLabrador | src/components/DogTable.jsx:66 | both "lab" and "LAB" keep a record whose first breed is "Labrador" |
| DogTable.OnlyFirstBreedMatters | src/components/DogTable.jsx:66-117 | records with the same first breed are kept or dropped together and get the same breed cell and alt text, whatever follows the first breed |
| DogTable.KeptIndicesIgnoreLaterBreeds | src/components/DogTable.jsx:65-67 | two record lists that agree position by position on the first breed name keep the same positions |
| DogTable.FilterAppend | src/components/DogTable.jsx:65-67 | filtering a concatenation is the concatenation of the filtered parts |
| DogTable.FilterAllMatching | src/components/DogTable.jsx:65-67 | a list whose every record matches is returned unchanged |
| DogTable.FilteredDogsIdempotent | src/components/DogTable.jsx:61-68 | filtering the shown list again with the same query gives the same list |
| DogTable.Label | src/components/DogTable.jsx:111-117 | the label is the first breed's name when that exists and is non-empty, and the fallback otherwise |
| DogTable.OrElse | src/components/DogTable.jsx:111-117 | the or-fallback of an optional name yields one of its two operands, yields the name whenever it is a non-empty string, and yields "" only when the name is undefined or "" and the fallback is "" too |
| DogTable.BreedCell | src/components/DogTable.jsx:111 | the breed cell is never empty; it is the first breed's name when that exists and is non-empty, and anything other than "Unknown Breed" in it is that name |
| DogTable.AltText | src/components/DogTable.jsx:117 | the alt text is never empty; it is the first breed's name when that exists and is non-empty, and anything other than "Dog" in it is that name |
| DogTable.RowOf | src/components/DogTable.jsx:108-121 | a row shows the record's url; a record with a named first breed shows that name as breed cell and alt text, any other record shows "Unknown Breed" and "Dog"; the two texts agree exactly when the record has a named first breed |
| DogTable.LabelsAgreeIffNamed | src/components/DogTable.jsx:111-117 | the breed cell and the alt text are never empty and are equal exactly when the record has a named first breed |
| DogTable.Rows | src/components/DogTable.jsx:107-117 | the table never has more rows than records and has one per record under the empty query; no breed cell or alt text is empty; under a non-empty query every row's breed cell equals its alt text, so no fallback label appears; for every query there is one row per shown record, and row k shows the k-th shown record's url with its breed name in both texts, or "Unknown Breed" and "Dog" when it has no named first breed |
| DogTable.RowsForQueryShowBreedNames | src/components/DogTable.jsx:66-117 | under a non-empty query every row shows its record's first breed name as both breed cell and alt text, so fallback labels appear only for the empty query |
| DogTable.EmptyQueryShowsPlaceholderRow | src/components/DogTable.jsx:107-117 | a "Pug" record and a record without breeds, under the empty query, render as ("Pug", "a.jpg", "Pug") and ("Unknown Breed", "b.jpg", "Dog") |
| DogTable.PartialQueryKeepsPug | src/components/DogTable.jsx:61-68 | the query "pu" keeps the Pug record and drops the record without breeds |
| DogTable.UnmatchedQueryKeepsNothing | src/components/DogTable.jsx:61-68 | the query "xyz" keeps neither record |
| DogTable.EmptyResponseRendersNothing | src/components/DogTable.jsx:107 | an empty record list renders no rows for any query |

## Left out

- The load in `useEffect` (`fetch`, `response.json()`, `setDogs`): it is asynchronous network I/O. The record list is a parameter of every function.
- `handleSearch`: it only passes the input's value to the React state setter. The query is a parameter.
- The JSX and MUI markup (app bar, text field, table, `img` styling): it is rendering with no logic beyond the labels and rows modelled here.
- JsString.Lower: ASCII only. JavaScript's `toLowerCase` also lower-cases non-ASCII letters, and it can make a string longer (U+0130 becomes two code points). It never maps a non-empty string to "", so `LowerEmpty` and the early-return part of `FilteredDogsCaseInsensitive` still hold under full Unicode lower-casing. The other case-insensitivity results would then hold for the Unicode lower-case forms.
- Malformed API data: every record has a breed sequence, and every breed has a string name. In the view, a record without `breeds` throws at `dog.breeds[0]` on every render. A first breed without `name` throws only under a non-empty query, where line 66 calls `toLowerCase` on undefined. Under the empty query that record renders with the fallback labels "Unknown Breed" and "Dog" (lines 111 and 117).
- The purity of the filter holds by construction, because Dafny functions cannot change their arguments. The view state (`dogs`, `searchQuery`) is not modelled as a separate object, since it is only replaced wholesale by React setters.
