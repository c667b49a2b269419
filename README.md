# Quote store: a verified model

This project models the record-keeping core of a browser "quote of the day" page
(`dom-manipulation/script.js`). The page keeps a list of quotes. Each quote has an
integer `id`, a `text` and a `category`. It also keeps the selected category filter
and the position of the quote on display. The model covers these operations:

- **Add a quote.** Both inputs are trimmed, and an empty one aborts the add. The new
  quote gets `max(id) + 1`, or 1 when the list is empty, and is appended.
- **List the categories.** The trimmed, non-empty categories are returned as a
  sorted list without duplicates.
- **Filter by category.** Filtering keeps the quotes whose category equals the filter
  exactly, in their order. The value `"all"` keeps every quote.
- **Show a quote.** The requested index is clamped into the filtered view. An empty
  view clears the stored index.
- **Sync with the server (server wins).** Each fetched quote whose id is already used
  overwrites the first local quote with that id, in place. Fetched quotes with unused
  ids are appended in the server's order. The sync reports how many quotes were new
  and how many conflicts it found. A failed fetch changes nothing.
- **Import from a parsed JSON array.** Entries whose `text` and `category` are
  strings are kept. An entry without a truthy `id` gets `maxId + index + 1`, where
  `index` is its position among the kept entries. The kept entries are appended.

Modules:

- `Builtins` (builtins.dfy) models the JavaScript built-ins the code calls:
  `String.prototype.trim`, the default string order of `Array.prototype.sort`, and
  `Array.prototype.filter` (`Keep`). It also holds an `Option` type for `null`.
- `Quotes` (quotes.dfy) holds the record, the next id, `findIndex` by id, the
  filtered view, the clamp and the category listing.
- `Sync` (sync.dfy) specifies the merge as functions (`Overwritten`, `NewRecords`,
  `ConflictCount`, `Merge`, `Report`) and proves what it does.
- `JsonImport` (json_import.dfy) holds the parsed entries, the validity test and the
  id filling (`ImportedQuote`).
- `Store` (store.dfy) holds the class `QuoteStore`. Its fields are the page's mutable
  state: `quotes`, `currentFilter`, `lastQuoteIndex`, and a ghost `snapshot` of what
  was last saved. Its methods are the operations. `SyncWithServer` and
  `ImportFromJson` run the source's loops, and their loop invariants tie the loops to
  the specification functions.

A repeated sync against an unchanged server list might be expected to report "no
changes". The code instead counts every fetched quote whose id is already used as a
conflict, even when the values are equal. So "no changes" is reported only when the
server sends an empty list (`Sync.NoChangesOnlyForEmptyRemote`), and a repeated sync
reports `|remote|` conflicts (`Sync.SyncTwiceIsSyncOnce`). The list itself is unchanged
by the repeated sync, provided the server's ids are distinct. When the server sends an
unused id twice, the first sync appends both copies, and the second sync overwrites the
first copy with the second (`Sync.RepeatedUnusedIdBreaksIdempotence`). A duplicated id
that is already used locally does no such harm: the first sync writes the last copy
into the local position, and appends nothing.

Two more behaviours of the code are stated as lemmas:

- The category listing trims, but the filter compares untrimmed categories. A quote
  that arrived by import or sync with category `" Life"` is listed as `"Life"`, and
  selecting `"Life"` shows nothing (`Quotes.ListedCategoryMayShowNothing`). When every
  stored category is trimmed, as the add path stores them, every listed category shows
  at least one quote (`Quotes.ListedCategoryHasQuotes`).
- An import keeps ids the entries bring with them, so it can repeat an id
  (`JsonImport.ImportMayRepeatIds`). The ids it assigns itself are fresh and pairwise
  distinct (`JsonImport.AssignedIdsAreFresh`).

## Model

| member | source | states |
|---|---|---|
| `Builtins.Trim` | dom-manipulation/script.js:185-186 | the result is a contiguous piece of the input with only white space cut off before and after it; it is empty exactly when the input is all white space, and otherwise starts and ends with a character that is not white space |
| `Builtins.LeadingWhiteSpace` | dom-manipulation/script.js:185 | counts the white space at the start: every counted character is white space and the next one is not |
| `Builtins.TrailingWhiteSpace` | dom-manipulation/script.js:186 | counts the white space at the end: every counted character is white space and the one before is not |
| `Builtins.TrimIdempotent` | dom-manipulation/script.js:82-83 | trimming a trimmed category changes nothing |
| `Builtins.Less` | dom-manipulation/script.js:86 | the default sort comparison on strings: a proper prefix comes first, otherwise the first differing character decides (its order properties are the three lemmas below) |
| `Builtins.LessIrreflexive` | dom-manipulation/script.js:86 | the sort order never ranks a string below itself |
| `Builtins.LessTransitive` | dom-manipulation/script.js:86 | the sort order is transitive |
| `Builtins.LessTotal` | dom-manipulation/script.js:86 | any two different strings are ordered one way or the other |
| `Builtins.Insert` | dom-manipulation/script.js:86 | one sorting step: inserting a string into a strictly ascending list keeps it strictly ascending and adds exactly that string |
| `Builtins.AscendingUnique` | dom-manipulation/script.js:86 | two strictly ascending lists with the same elements are equal, so the sorted listing is determined by its set of categories |
| `Builtins.Keep` | dom-manipulation/script.js:138 | `filter` returns no more elements than its input, and each of them satisfies the predicate |
| `Builtins.KeepCount` | dom-manipulation/script.js:138 | each element occurs in the filtered list as often as in the input if it satisfies the predicate, and not at all otherwise |
| `Builtins.KeepSubsequence` | dom-manipulation/script.js:138 | the filtered list keeps the input's order (it is a subsequence) |
| `Builtins.KeepConcat` | dom-manipulation/script.js:138 | filtering a concatenation concatenates the filtered parts |
| `Quotes.DefaultQuotes` | dom-manipulation/script.js:2-8 | the five sample quotes, with strictly increasing ids |
| `Quotes.Ids` | dom-manipulation/script.js:350 | `new Set(quotes.map(q => q.id))`: the set of ids that some quote of the list carries |
| `Quotes.MaxId` | dom-manipulation/script.js:195 | the result is at least every id and is the id of some quote; it is 0 for an empty list |
| `Quotes.NextIdIsFresh` | dom-manipulation/script.js:195-197 | `max(id) + 1` is larger than every existing id, so no quote uses it |
| `Quotes.AppendNextKeepsIdsAscending` | dom-manipulation/script.js:195-203 | appending a quote with the next id keeps strictly increasing ids strictly increasing |
| `Quotes.AscendingIdsAreUnique` | dom-manipulation/script.js:195-203 | strictly increasing ids are pairwise distinct |
| `Quotes.IndexOfId` | dom-manipulation/script.js:356 | `findIndex` returns -1 exactly when no quote has the id; otherwise it returns the first position holding the id |
| `Quotes.IndexOfIdSameIds` | dom-manipulation/script.js:355-363 | `findIndex` depends only on the ids, so overwriting a quote with one of the same id does not move later lookups |
| `Quotes.InCategory` | dom-manipulation/script.js:138 | the test `quote.category === currentFilter`: exact, untrimmed and case-sensitive equality of the category |
| `Quotes.Filtered` | dom-manipulation/script.js:134-139 | the filter "all" returns the whole list; any other filter returns only quotes whose category equals it exactly |
| `Quotes.FilteredExactly` | dom-manipulation/script.js:138 | for a filter other than "all", each quote appears in the view as often as in the store if its category equals the filter, and never otherwise |
| `Quotes.FilteredInOrder` | dom-manipulation/script.js:134-139 | the view is a subsequence of the store: it keeps the store's order |
| `Quotes.FilteredAppend` | dom-manipulation/script.js:134-139 | the view of an extended list is the old view followed by the view of the added quotes |
| `Quotes.Clamp` | dom-manipulation/script.js:152 | the result lies in the view; an index inside the view is kept, a negative one becomes 0, a too-large one becomes the last position |
| `Quotes.TrimmedCategories` | dom-manipulation/script.js:81-84 | entry `k` is the trimmed category of quote `k`, one entry per quote |
| `Quotes.CategorySet` | dom-manipulation/script.js:80-85 | the `categories` set: exactly the trimmed categories of the quotes that are not empty |
| `Quotes.UniqueCategories` | dom-manipulation/script.js:79-87 | the result is strictly ascending, so sorted and without duplicates, and it contains a string exactly when the string is non-empty and is `Trim` of some quote's category |
| `Quotes.ListedCategoryHasQuotes` | dom-manipulation/script.js:79-139 | when every stored category is already trimmed, every listed category selects a non-empty view |
| `Quotes.ListedCategoryMayShowNothing` | dom-manipulation/script.js:79-139 | a quote with category " Life" is listed under "Life", but filtering by "Life" shows nothing |
| `Sync.ReplaceFirst` | dom-manipulation/script.js:356-363 | the in-place overwrite keeps the length and the id at every position |
| `Sync.Overwritten` | dom-manipulation/script.js:355-365 | the conflict loop keeps the length of the local list and the id at every position |
| `Sync.LastWithId` | dom-manipulation/script.js:355-365 | there is a result exactly when some remote quote has the id; the result then sits at a position of the remote list that holds the id, and no later position holds it |
| `Sync.NotIn` | dom-manipulation/script.js:368 | the test `!localQuoteIds.has(serverQuote.id)`: the quote's id is not in the given set |
| `Sync.NewRecords` | dom-manipulation/script.js:368 | every record selected for appending has an id the local list did not use |
| `Sync.ConflictCount` | dom-manipulation/script.js:354-365 | `conflicts.length`: at most the number of remote quotes, and 0 when no remote id is in use |
| `Sync.Merge` | dom-manipulation/script.js:350-369 | the list after a sync is at least as long as before and grows by at most the number of remote quotes; old positions keep their ids, and appended quotes carry ids that were unused |
| `Sync.Report` | dom-manipulation/script.js:376-382 | a successful sync never reports failure; the reported new count is how much the list grew, and new plus conflicts is the number of remote quotes |
| `Sync.OverwrittenAt` | dom-manipulation/script.js:355-365 | after the conflict loop, the first local position of an id holds the last remote quote with that id; every other position holds its old quote |
| `Sync.MergeKeepsUnmatched` | dom-manipulation/script.js:350-369 | a local quote whose id no remote quote carries keeps its value and its position |
| `Sync.MergeServerWins` | dom-manipulation/script.js:355-365 | a remote quote with a used id replaces the first local quote with that id, and later remote quotes with the same id win over earlier ones; later local duplicates are untouched |
| `Sync.MergeShape` | dom-manipulation/script.js:367-369 | the new length is the old length plus the number of remote quotes with unused ids; those quotes follow the old list in remote order; ids at old positions are unchanged |
| `Sync.CountsPartitionRemote` | dom-manipulation/script.js:354-368 | the number of new quotes plus the number of conflicts equals the number of remote quotes |
| `Sync.NoChangesOnlyForEmptyRemote` | dom-manipulation/script.js:376-382 | "no changes" is reported exactly when the server sent no quotes |
| `Sync.LastWithIdOfMember` | dom-manipulation/script.js:355-365 | with distinct remote ids, the remote quote that wins for an id is the only one carrying it |
| `Sync.NoNewRecordsWhenAllKnown` | dom-manipulation/script.js:368 | when every remote id is already in use, nothing is appended |
| `Sync.AllConflictsWhenAllKnown` | dom-manipulation/script.js:355-365 | when every remote id is already in use, every remote quote counts as a conflict |
| `Sync.RemoteIdsUsedAfterMerge` | dom-manipulation/script.js:350-369 | after a sync every remote id is used by the local list |
| `Sync.SyncTwiceIsSyncOnce` | dom-manipulation/script.js:343-369 | with distinct remote ids, a second sync against the same list leaves the list as the first sync left it; it adds nothing and counts every remote quote as a conflict |
| `Sync.RepeatedUnusedIdBreaksIdempotence` | dom-manipulation/script.js:355-369 | with remote `[10 "a", 10 "b"]` and an empty local list, the first sync yields the remote list and a second sync yields `[10 "b", 10 "b"]`, so the distinct-ids assumption of `SyncTwiceIsSyncOnce` is needed |
| `Sync.ServerWinsOnSharedId` | dom-manipulation/script.js:355-365 | local quote 5 "A" against remote quote 5 "B" ends with "B" and the report of zero new quotes and one conflict |
| `Sync.UnknownIdIsAppended` | dom-manipulation/script.js:367-369 | a remote quote with an unused id is appended and reported as one new quote with no conflicts |
| `JsonImport.IsValid` | dom-manipulation/script.js:268-270 | the entry is an object whose `text` and `category` are strings |
| `JsonImport.HasTruthyId` | dom-manipulation/script.js:280 | the truthiness of `quote.id` that decides whether an entry keeps its id: an absent id (also `null` or `false`) and 0 are falsy; every other integer, negative ones included, is truthy |
| `JsonImport.ImportedQuote` | dom-manipulation/script.js:278-281 | the quote keeps the entry's text and category; a truthy id is kept, and otherwise the id exceeds `maxId + index` |
| `JsonImport.ValidItems` | dom-manipulation/script.js:268-270 | only entries whose text and category are strings are kept, and never more entries than the input has |
| `JsonImport.ValidItemsExactly` | dom-manipulation/script.js:268-270 | every valid entry is kept as often as it occurs, invalid ones never, in the input's order |
| `JsonImport.AssignedIdsAreFresh` | dom-manipulation/script.js:278-281 | an id assigned to an entry without one is larger than every existing id, and assigned ids increase with the entry's position |
| `JsonImport.ImportMayRepeatIds` | dom-manipulation/script.js:278-281 | an entry that brings id 6 keeps it, while an entry without an id after a list whose largest id is 5 also gets 6 |
| `JsonImport.OneValidOfTwo` | dom-manipulation/script.js:268-270 | of `[{text: "X", category: "Y"}, {bad: 1}]` exactly the first entry is valid |
| `Store.QuoteStore.constructor` | dom-manipulation/script.js:2-18 | the store starts with the five sample quotes, whose ids increase strictly, the filter "all" and no stored index |
| `Store.QuoteStore.View` | dom-manipulation/script.js:134-139 | the quotes the current filter shows, a subsequence of the store |
| `Store.QuoteStore.DisplayQuote` | dom-manipulation/script.js:142-162 | on an empty view nothing is shown and the stored index is cleared; otherwise the quote at the clamped index is shown and that index is stored |
| `Store.QuoteStore.ShowRandomQuote` | dom-manipulation/script.js:165-176 | like the display, for the random draw; a draw inside the view is shown unchanged |
| `Store.QuoteStore.FilterQuote` | dom-manipulation/script.js:126-131 | the filter becomes the selected category and a quote of the new view is shown |
| `Store.QuoteStore.AddQuote` | dom-manipulation/script.js:184-222 | an empty trimmed input changes nothing; otherwise exactly one quote with the trimmed fields and id `max(id) + 1` is appended, earlier quotes are unchanged, the list is saved, the filter becomes "all" and the new quote is shown; the new id is larger than every earlier id and increasing ids stay increasing |
| `Store.QuoteStore.SyncWithServer` | dom-manipulation/script.js:339-388 | a failed fetch changes nothing and reports failure; otherwise the list becomes the server-wins merge, it is saved, and the report carries the new and conflict counts |
| `Store.QuoteStore.ImportFromJson` | dom-manipulation/script.js:264-291 | a non-array or an import without valid entries changes nothing; otherwise the old list is an unchanged prefix and exactly the valid entries follow in order, each with its own truthy id or `maxId + index + 1`, the list is saved, the filter becomes "all" and a quote is shown |
| `Store.SameIdsSameSet` | dom-manipulation/script.js:350 | lists with the same ids position by position have the same id set, so the set of local ids taken before the conflict loop stays valid during it |

## Left out

- Rendering is left out because it is UI only. This covers `innerHTML`, `populateCategories`, `setFilterSelect`, `alert`, `showSyncStatus`, the input-field resets and the event listeners. `DisplayQuote`, `ShowRandomQuote` and `FilterQuote` return the displayed quote as their `shown` result instead. `AddQuote` and `ImportFromJson` show a quote too but do not return it.
- `loadQuotes` and the storage it reads are left out because they are browser I/O. This covers `localStorage`, `sessionStorage`, the `lastFilter` key, `parseInt` of the stored index and the `JSON.parse` recovery. `saveQuotes` is modelled only as the ghost field `snapshot`. The `Date.now()` timestamp it writes reads the clock and is left out.
- `fetchQuotesFromServer` is left out because it is a network call plus a JSON mapping. Its result is the `fetched` parameter of `SyncWithServer`, with `None` for a failed fetch. `postQuoteToServer` only logs and is left out.
- `startAutoSync` and `setInterval` are left out because they are timers. Overlapping syncs are concurrency and are not modelled.
- `Math.random` is nondeterministic. Its draw is the `draw` parameter of `ShowRandomQuote`, `FilterQuote` and `ImportFromJson`, and it is clamped like any other index.
- Export (`Blob`, object URL, anchor click) and the reading and parsing of the import file (`FileReader`, `JSON.parse`) are file I/O. The import starts from the parsed value, so the export/import round trip is not modelled.
- `Store.QuoteStore.SyncWithServer`: the `conflicts` list keeps each pair of local and server quotes, but only its length is ever used, so the model keeps only the count.
- `JsonImport.Item`: an `id` is either absent or an integer. Ids of other JavaScript types (strings, fractions) are not modelled, and neither is any property of an entry other than `id`, `text` and `category`.
- `Quotes.Quote`: ids are unbounded integers. JavaScript numbers lose precision above 2^53, and that is not modelled.
- `Builtins.Less`: strings are compared by Unicode code point, while JavaScript's default sort compares UTF-16 code units. The two orders differ only between characters above U+FFFF and characters in U+E000 to U+FFFF.
- `Store.QuoteStore.DisplayQuote`: the index is an integer. Callers in the source always pass one, so `NaN` and non-numeric indices are not modelled.
- Nothing in the model throws, so the `try`/`catch` of `syncWithServer` has no counterpart.
