# Personal link page: the link store

This project models the in-memory link store of a client-side bookmark page
(`index.js`). Its data is `allLinks`, the full list of bookmarks, and
`filteredLinks`, the list on screen. The model covers the handlers that
change them:

- the search filter (`filterLinks`);
- the modal form's submit, which validates the fields and then edits or adds
  a record (`handleModalFormSubmit`);
- the card click handler, which looks a record up and opens it for editing or
  deletes it after confirmation (`handleLinksContainerClick`);
- the startup load that fills `allLinks`.

Structure:

- `text.dfy`, module `Text`: the string primitives the handlers use. `trim`
  strips the ECMAScript WhiteSpace and LineTerminator characters.
  `toLowerCase` is ASCII lowercasing. `includes` is substring search.
- `links.dfy`, module `Links`: the `Link` record and the pure list
  operations. `Select` is `Array.prototype.filter`. The search filter and
  delete-by-id are both instances of it. `ReplaceById` is the edit `map` and
  `FindById` is `find`. `View` is what `filterLinks` computes.
- `store.dfy`, module `Store`: form validation (`CheckForm`), the list after
  an accepted submit (`Upsert`), and the class `LinkStore`. The class holds
  `allLinks`, `filteredLinks`, the search box text and the modal's error
  line. Its methods mirror the event handlers, and each one re-establishes
  `Valid()`, which says that `filteredLinks == View(allLinks, searchInput)`.

The browser is abstracted as follows:

- DOM input values are method parameters.
- `confirm(...)` is a boolean parameter.
- `Date.now().toString()` is a `freshId` chosen by the caller.
- `new URL(url)` succeeding is a caller-supplied function `isUrl: string -> bool`.
- The result of the startup `fetch` is an `Option<seq<Link>>`: `None` when the
  request or its decoding failed.

Four behaviours of the handlers are easy to misread; the model follows the code:

- A submit with a blank field does not leave the error line as it was. The
  handler clears `modalError` before any check (index.js:156), so afterwards
  the error line is empty.
- The search term is lowercased first and trimmed second (index.js:112).
  `Text.LowerTrimCommute` proves that the other order gives the same term.
- Deleting removes every record with the id (index.js:201). It removes
  exactly one record only when ids are unique, which `Links.RemoveUniqueId`
  proves.
- Adding keeps ids unique only if the timestamp id is not already in use.
  `Store.UpsertAdd` states that condition.

## Model

| member | source | states |
|---|---|---|
| `Text.TrimStart` | index.js:159-161 | the result is a suffix of the input; everything it cuts is whitespace; it does not start with whitespace |
| `Text.TrimEnd` | index.js:159-161 | the result is a prefix of the input; everything it cuts is whitespace; it does not end with whitespace |
| `Text.Trim` | index.js:159-161 | `s.trim()` is never longer than `s`; its full contract is stated by `Text.TrimIsSlice`, `Text.TrimEmptyIff` and `Text.TrimIdempotent` |
| `Text.TrimIsSlice` | index.js:112 | `trim` returns a contiguous slice, with only whitespace on either side of it and no whitespace at either of its ends |
| `Text.TrimEmptyIff` | index.js:163 | a trimmed field is empty, so the `!title` test fires, exactly when the raw field is all whitespace |
| `Text.TrimIdempotent` | index.js:159-161 | trimming a trimmed value changes nothing |
| `Text.ToLower` | index.js:112 | lowercasing keeps the length and lowercases each character separately |
| `Text.ToLowerIdempotent` | index.js:117-119 | lowercased text has no upper-case ASCII letter and lowercasing it again changes nothing |
| `Text.LowerTrimCommute` | index.js:112 | `toLowerCase().trim()` and `trim().toLowerCase()` give the same search term |
| `Text.Includes` | index.js:117-119 | a needle longer than the haystack is never found; `Text.IncludesIff` and `Text.IncludesEmpty` state exactly when it is |
| `Text.IncludesIff` | index.js:117-119 | `includes` answers true exactly when the needle occurs at some position of the haystack |
| `Text.IncludesEmpty` | index.js:117-119 | every string includes the empty string |
| `Links.Select` | index.js:116-120 | `filter` returns no more elements than its input, and each one is an input element that satisfies the predicate |
| `Links.SelectPositions` | index.js:116-120 | `filter` keeps exactly the positions whose element satisfies the predicate, as an increasing list of positions that spells out the result |
| `Links.SelectIsSubsequence` | index.js:116-120 | the result of `filter` is an order-preserving subsequence of its input |
| `Links.SelectMembership` | index.js:116-120 | an element is in the result of `filter` exactly when it is in the input and satisfies the predicate |
| `Links.SelectAll` | index.js:116-120 | filtering with a predicate that every element satisfies returns the whole list |
| `Links.SelectAppend` | index.js:178 | `filter` distributes over appending |
| `Links.SelectCommute` | index.js:201 | two filters give the same result in either order |
| `Links.Matches` | index.js:117-119 | the filter callback accepts every link for an empty term; `Links.MatchIgnoresCase` states its case-insensitivity |
| `Links.Filter` | index.js:116-120 | the search filter returns no more links than it is given; `Links.FilterSpec` states which links and in what order |
| `Links.SearchTerm` | index.js:112 | the term is never longer than the box's text; `Links.SearchTermShape` and `Links.SearchTermIgnoresCase` state its shape |
| `Links.FilterSpec` | index.js:116-120 | the search filter returns an order-preserving subsequence made of exactly the links whose lowercased title, category or url contains the term |
| `Links.View` | index.js:112-121 | for a blank term the view is the whole list in its original order, and it is never longer than the list |
| `Links.ViewSpec` | index.js:112-121 | the view is an order-preserving subsequence of the list, made of exactly the matching links when the term is not blank and of all links otherwise |
| `Links.ViewOfEmpty` | index.js:2-3 | with no records every search shows nothing |
| `Links.ViewPositions` | index.js:116-120 | for a search box that is not all whitespace, a position is kept exactly when its link matches, and the kept links stay in their original order |
| `Links.MatchIgnoresCase` | index.js:117-119 | two links whose fields agree up to ASCII case match the same terms |
| `Links.SearchTermIgnoresCase` | index.js:112 | the search term has no upper-case letters, and a search box value and its lowercased form give the same term |
| `Links.SearchTermShape` | index.js:112-113 | the term is already trimmed, and it is empty exactly when the search box holds only whitespace |
| `Links.ViewIdempotent` | index.js:116-120 | filtering the view again with the same search box value changes nothing |
| `Links.ReplaceById` | index.js:174 | the edit `map` keeps the length; every record with the id becomes the new record and every other record is unchanged |
| `Links.ReplaceMissingId` | index.js:174 | editing an id that no record has leaves the list unchanged |
| `Links.ReplaceKeepsUniqueIds` | index.js:174 | an edit that keeps the id keeps every position's id, keeps ids unique, and the new record is present when the id was |
| `Links.RemoveById` | index.js:201 | the delete `filter` never lengthens the list; `Links.RemoveByIdSpec` and `Links.RemoveUniqueId` state what it keeps |
| `Links.RemoveByIdSpec` | index.js:201 | deleting keeps, in order, exactly the records with another id, and no record with the deleted id remains |
| `Links.RemoveMissingId` | index.js:201 | deleting an id that no record has leaves the list unchanged |
| `Links.RemoveUniqueId` | index.js:201 | with unique ids, deleting a present id removes exactly one record and keeps ids unique |
| `Links.FindById` | index.js:194-195 | `find` returns nothing exactly when no record has the id; otherwise it returns the first record with that id |
| `Links.ViewAppend` | index.js:178-182 | after an append the view is the old view plus the new record at the end when it is visible |
| `Links.ViewRemove` | index.js:201-202 | deleting and then re-filtering gives the same list as deleting from the view |
| `Store.CheckForm` | index.js:158-170 | a submit is incomplete exactly when a trimmed field is empty; it is rejected for its URL exactly when the fields are complete and the URL does not parse; otherwise it carries the three trimmed, non-empty fields |
| `Store.Upsert` | index.js:172-178 | with an id the list keeps its length; without one it grows by one record carrying the fresh id; `Store.UpsertEdit` and `Store.UpsertAdd` state the rest |
| `Store.UpsertEdit` | index.js:172-174 | a submit with an id keeps length and order, overwrites each record with that id, leaves the others unchanged, changes nothing when no record has the id, and keeps ids unique |
| `Store.UpsertAdd` | index.js:176-178 | a submit without an id appends exactly one record with the fresh id and the trimmed fields and keeps the existing prefix; ids stay unique when the fresh id is unused |
| `Store.DeleteConfirmed` | index.js:194-200 | a click deletes only for a non-empty action, a confirmed prompt and an id some record has |
| `Store.LinkStore.constructor` | index.js:2-3 | both lists start empty, the search box and error line keep the page's initial values, and the view invariant holds for any search text |
| `Store.LinkStore.FilterLinks` | index.js:111-123 | `filteredLinks` is a copy of `allLinks` for a blank term and the search filter of it otherwise, so the view invariant holds again |
| `Store.LinkStore.Search` | index.js:210 | after the search box changes, the view is recomputed for the new value |
| `Store.LinkStore.Load` | index.js:226-236 | `allLinks` is the loaded list, or empty when loading failed, and the view matches it |
| `Store.LinkStore.Submit` | index.js:154-183 | the error line is cleared; a blank field changes nothing else; an unparsable URL changes nothing but sets "Please enter a valid URL."; otherwise `allLinks` becomes the `Upsert` of the trimmed fields; the view invariant holds in every case |
| `Store.LinkStore.Click` | index.js:185-205 | nothing changes unless the click is a delete of an existing record that the user confirmed, and then every record with that id is removed; an edit of an existing record returns it and clears the error line, as opening the modal does (index.js:136) |

## Left out

- Rendering (`renderLinks`, `createLinkCard`, the empty-state text) and the modal's visibility, title, filled-in fields and form reset are DOM work. The model has no state for them. Of `openModal`, only its clearing of the error line (index.js:136) is modelled, in `Click`'s edit branch.
- `getHostname` and the favicon URL depend on the browser's URL parser, an external library.
- `handleSearchSubmit` only builds a search URL with `encodeURIComponent` and opens a window.
- Event-listener wiring in `init` is not modelled. Its `fetch` is reduced to `Load` with an optional list. The model does not check that the JSON holds well-formed records.
- `new URL` is not modelled. Its success is the caller-supplied `isUrl`.
- `confirm` is a boolean. `Date.now()` is the caller-supplied `freshId`, so nothing guarantees that it is new.
- Text.ToLower: models ASCII lowercasing only. Unicode case mapping, which can change a string's length, is not modelled.
- `Store.LinkStore.Click` models the button, action, card and lookup path of the click handler. `e.target.closest` is abstracted: a missing button is an absent action, and the card id is a parameter.
- Dafny's `string` is a sequence of Unicode scalar values, while JavaScript strings are UTF-16 code units. This changes nothing for `trim`, because every character it strips is in the Basic Multilingual Plane, nor for `includes` on well-formed text.
- The `console.error` call that logs a failed load (index.js:233) is dropped; `Load` models only its effect on `allLinks`.
