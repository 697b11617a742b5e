# Events overview of the newsroom front-end, modelled in Dafny

This project models the logic behind the events overview of the editorial newsroom tool.

**Events grid** (`src/views/EventsOverview/EventsGrid.tsx`):
- The fetcher handed to the cache. It returns nothing when the session is not authenticated. It throws when the start or end search parameter is missing. Otherwise it issues a search for at most 500 hits sorted by start, and buckets the hits when the reply is `ok`.
- `structureByDate` files each hit under a calendar day. It keeps the hit's start timestamps that fall inside the window, which is inclusive at both ends. It sorts them and takes the earliest. It converts that timestamp to an ISO string in the display time zone and keeps the first ten characters (`YYYY-MM-DD`). The hit is then appended to that day's list in a dictionary, and the list is created when absent.
- The grid gets one column per day, or one column when there are no days. Days are shown in ascending string order.

**Events table** (`src/views/EventsOverview/EventsListColumns.tsx`):
- Each column's accessor: the value it derives from one hit.
- The categorical filters of the visibility, news-value, section and planning-status columns. Each is a membership test of the row's value in the selected values.
- The filter options, including one section option per section.
- The fixed column order.

Modules:
- `Wrappers`: the `Option` type. `None` plays JavaScript's `undefined`.
- `Sequences`: duplicate-free sequences. Also the sort performed by `Array.prototype.sort` with a comparator of the form `(a, b) => a > b ? 1 : -1`, modelled as an insertion sort. Its lemmas say the result is a sorted permutation. They also say that any two sorted arrangements of the same values are equal, so the choice of algorithm and the comparator's tie handling cannot show.
- `StringOrder`: JavaScript's `<` on strings, proved to be a strict total order.
- `Schemas`: the hit record and the search reply.
- `EventsGrid`: the fetcher, the bucketing and the grid.
- `EventsListColumns`: the table's column model.

`structureByDate` is an imperative `for` loop that updates a local dictionary. It is modelled as the method `EventsGrid.StructureByDate`, whose loop updates a local `EventsByDate` value. That value holds the keys in insertion order and a map from key to bucket. For non-numeric keys such as `YYYY-MM-DD`, insertion order is the order `Object.keys` reports; integer-like keys would be listed first, in numeric order. Nothing here depends on that order, since only the number of keys and their sorted order are used. The method is proved against a reference group-by, `Grouped`: every bucket is the list of hits whose key it is, in their original order. The group-by and its lemmas take any key function. `KeyOf(w)` is the one the events grid uses.

## Model

| member | source | states |
|---|---|---|
| `EventsGrid.StartsInWindow` | src/views/EventsOverview/EventsGrid.tsx:107-111 | keeps exactly the starts t that satisfy `InWindow` (line 110's test `startTime <= t <= endTime`), so a start equal to either bound is kept |
| `EventsGrid.TimeAfterIsStrictTotalOrder` | src/views/EventsOverview/EventsGrid.tsx:111-113 | `TimeAfter`, the start comparator `dt1 > dt2 ? 1 : -1` read as "dt1 goes after dt2", is a strict total order on timestamps |
| `EventsGrid.SortedStarts` | src/views/EventsOverview/EventsGrid.tsx:112-114 | the sorted list holds the same in-window starts as the filtered one |
| `EventsGrid.SortedStartsInWindow` | src/views/EventsOverview/EventsGrid.tsx:107-116 | the filtered and sorted list is empty exactly when no start lies in the window; otherwise its element 0 is the earliest in-window start |
| `EventsGrid.EarliestInWindow` | src/views/EventsOverview/EventsGrid.tsx:107-116 | yields nothing exactly when no start is in the window, and otherwise a start in the window that is no later than any other in-window start |
| `EventsGrid.DateKey` | src/views/EventsOverview/EventsGrid.tsx:119 | `substring(0, 10)`: the first ten characters, or the whole string when it is shorter |
| `EventsGrid.BucketKey` | src/views/EventsOverview/EventsGrid.tsx:107-119 | a hit has a key exactly when it has a start in the window; the key is the date part of the local ISO string of its earliest in-window start (corrected: no key, hence skipped, otherwise) |
| `EventsGrid.BucketKeyAsWritten` | src/views/EventsOverview/EventsGrid.tsx:115-119 | the source's computation, defined only when element 0 exists; there it agrees with `BucketKey` |
| `EventsGrid.AsWrittenReadsEmptyList` | src/views/EventsOverview/EventsGrid.tsx:115-117 | for a hit whose only start precedes the window, the list read at index 0 is empty and the corrected key skips the hit |
| `EventsGrid.AnySortedOrderGivesSameKey` | src/views/EventsOverview/EventsGrid.tsx:111-119 | whichever sorted arrangement of the in-window starts the sort returns, its first element gives the same key, so ties cannot change the bucket |
| `EventsGrid.Bucket` | src/views/EventsOverview/EventsGrid.tsx:104-125 | reference bucket: only hits of the input whose key is the bucket's key |
| `EventsGrid.BucketMembership` | src/views/EventsOverview/EventsGrid.tsx:104-125 | a hit lies in the bucket of k exactly when k is its own key: it is in one bucket, or in none when it has no start in the window |
| `EventsGrid.KeyPositions` | src/views/EventsOverview/EventsGrid.tsx:104 | the positions of the hits with a given key, strictly ascending, each holding a hit with that key |
| `EventsGrid.KeyPositionsComplete` | src/views/EventsOverview/EventsGrid.tsx:104 | every position whose hit has the key is among those positions |
| `EventsGrid.BucketKeepsHitOrder` | src/views/EventsOverview/EventsGrid.tsx:104-124 | entry j of a bucket is the hit at the j-th position with that key: hits keep their relative order from `result.hits` |
| `EventsGrid.GroupedSnoc` | src/views/EventsOverview/EventsGrid.tsx:120-124 | filing one more hit extends only the bucket of its own key, at the end; a hit without a key changes nothing |
| `EventsGrid.GroupedTotal` | src/views/EventsOverview/EventsGrid.tsx:104-125 | summed over any repeat-free listing of the keys, the buckets hold exactly as many entries as there are hits with a key |
| `EventsGrid.AllInWindowAllFiled` | src/views/EventsOverview/EventsGrid.tsx:104-125 | when every hit has a start in the window, every hit is filed, so the entries number as many as the hits |
| `EventsGrid.DictionaryCounts` | src/views/EventsOverview/EventsGrid.tsx:97-128 | a dictionary holding the grouping has one key per distinct date and one entry per filed hit |
| `EventsGrid.AppendToBucket` | src/views/EventsOverview/EventsGrid.tsx:120-124 | creates the bucket only when absent (appending its key to the key order), appends the hit at its end, never clears a bucket, leaves every other bucket unchanged |
| `EventsGrid.StructureByDate` | src/views/EventsOverview/EventsGrid.tsx:97-128 | no result when `hits` is not an array; otherwise the dictionary equals the reference grouping, has one key per distinct date and one entry per filed hit |
| `EventsGrid.GridSize` | src/views/EventsOverview/EventsGrid.tsx:63-84 | between 1 and 7; the number of keys when there are any, and exactly 1 when there are none |
| `EventsGrid.GridSizeCountsDates` | src/views/EventsOverview/EventsGrid.tsx:84 | for a bucketed result, the grid size is the number of distinct dates, or 1 when there are none |
| `EventsGrid.SortedKeys` | src/views/EventsOverview/EventsGrid.tsx:89 | the keys in the grid's layout order are a permutation of the dictionary's keys |
| `EventsGrid.SortedKeysFacts` | src/views/EventsOverview/EventsGrid.tsx:89 | the sorted keys are the dictionary's keys, each once, strictly ascending |
| `EventsGrid.GridColumns` | src/views/EventsOverview/EventsGrid.tsx:79-91 | nothing without data; otherwise one column per key, keys strictly ascending, each with its bucket's hits |
| `EventsGrid.FetchEventsByDate` | src/views/EventsOverview/EventsGrid.tsx:37-60 | not authenticated: no search and no data; a missing parameter: no search and a thrown error; otherwise the 500-hit start-ascending search, then no data unless the reply is ok, else the bucketed map |
| `Sequences.SortBy` | src/views/EventsOverview/EventsGrid.tsx:111-113 | the sort returns a permutation of its input |
| `Sequences.SortBySorted` | src/views/EventsOverview/EventsGrid.tsx:111-113 | under a strict weak order, the sort's output is in order |
| `Sequences.SortedPermutationsEqual` | src/views/EventsOverview/EventsGrid.tsx:111-113 | under a strict total order, two sorted arrangements of the same values are equal |
| `StringOrder.KeyAfterIsStrictTotalOrder` | src/views/EventsOverview/EventsGrid.tsx:89 | `KeyAfter`, the key comparator `dt1 > dt2 ? 1 : -1` read as "dt1 goes after dt2", is JavaScript's string `>` (`LexLess` with the arguments swapped: lexicographic, a proper prefix first) and is a strict total order |
| `EventsListColumns.FirstOf` | src/views/EventsOverview/EventsListColumns.tsx:44 | `field?.[0]`: the first value, undefined exactly when the field is absent or empty |
| `EventsListColumns.Head` | src/views/EventsOverview/EventsListColumns.tsx:85 | `list[0]`: the first element, undefined exactly when the list is empty |
| `EventsListColumns.PlanningStatusOf` | src/views/EventsOverview/EventsListColumns.tsx:133-135 | "planned" exactly when `_relatedPlannings` is an array (an empty one too), "unplanned" exactly when it is not |
| `EventsListColumns.PlanningStatusIsAnOption` | src/views/EventsOverview/EventsListColumns.tsx:128-135 | the planning status of every hit is the value of one of the column's two options |
| `EventsListColumns.SectionOptions` | src/views/EventsOverview/EventsListColumns.tsx:97-103 | one option per section, in order, with value and label both the section title; omitted sections (defaulted to `[]` at line 27) give no options |
| `EventsListColumns.Accessor` | src/views/EventsOverview/EventsListColumns.tsx:42-158 | visibility, news value and section give the first value of their field or undefined; title gives the first title; planning status its derived value; event time the pair (first start, first end); the action column has no accessor |
| `EventsListColumns.FilterFn` | src/views/EventsOverview/EventsListColumns.tsx:50-52 | defined exactly for the four categorical columns (the same test stands at lines 74-76, 118-120 and 140-142); passes a row exactly when its value is defined and among the selected values, so an empty selection passes nothing |
| `EventsListColumns.PlanningFilterByState` | src/views/EventsOverview/EventsListColumns.tsx:133-142 | the planning filter passes a hit exactly when the option for its planning state is selected |
| `EventsListColumns.SectionFilterWithAllOptions` | src/views/EventsOverview/EventsListColumns.tsx:97-120 | with every section option selected, the section filter passes exactly the hits whose first section title is a known section's title |
| `EventsListColumns.EventTableColumns` | src/views/EventsOverview/EventsListColumns.tsx:27-177 | seven columns with distinct ids (`ColumnIdName` gives each its source id) in the order visibilityStatus, newsvalue, title, section, planning_status, event_time, action; exactly the filtering columns carry options (`ColumnOptions`, `meta.options` at lines 37, 60, 97 and 128): visibility the default visibility statuses, news value the default news values, section the section options, planning status the `PlanningOptions` pair planned/unplanned |
| `EventsListColumns.PlanningColumnOffersStatus` | src/views/EventsOverview/EventsListColumns.tsx:123-135 | the planning-status column the table declares has, among its options, the planning status of every hit |

## Left out

- Rendering is not modelled: JSX, the `cva`/`cn` class variants, icons and CSS classes, the `EventsGridColumn` component, the `new Date(key)` passed to it, and every `cell` and `Filter` renderer.
- The caching library and React are not modelled: `useSWR` and its revalidation, `useMemo`, and the `useRegistry`, `useIndexUrl` and `useSession` hooks. The session status is an input, and the access token is not modelled.
- `Events.search` and the network are not modelled. The reply to the search is an input of `FetchEventsByDate`. A search that throws is not modelled.
- Building the search URL with `URL`/`URLSearchParams` (EventsGrid.tsx:28-35) is not modelled. The fetcher takes the two values that `searchParams.get` yields. Because the URL is always built with both parameters, the throwing branch is unreachable in the running program.
- Date handling is not modelled: `getDateTimeBoundaries`, `convertToISOStringInUTC`, `convertToISOStringInTimeZone` and `Date` parsing. Timestamps are integers. The time-zone conversion is the function field `localIso` of `DateWindow`. Start strings that do not parse are not represented.
- EventsGrid.SortedKeysFacts: the keys are proved ascending as strings. That this is also date order needs `YYYY-MM-DD` keys, which depends on the external conversion `localIso`, so it is not proved.
- StringOrder.LexLess: Dafny characters are Unicode scalar values and JavaScript compares UTF-16 code units. The two orders agree on the ASCII date keys.
- EventsGrid.DateKey: JavaScript's `substring(0, 10)` counts UTF-16 code units, while Dafny counts Unicode scalar values. The two agree on the ASCII prefix of an ISO date string.
- Sequences.SortBy: the engine's sort algorithm is not modelled. Insertion sort stands for it, and `SortedPermutationsEqual` shows that any sort yields the same output for these totally ordered values.
- EventsGrid.GridSize: it requires at most seven keys, because the `as GridSize` cast at EventsGrid.tsx:63-84 only asserts a type. With more keys no size variant applies.
- The `menuItems` click handlers and the `confirm` dialog (EventsListColumns.tsx:180-198) are UI event plumbing and are not modelled.
- The option lists `VisibilityStatuses` and `Newsvalues` come from `src/defaults`, which is not part of this model. They enter as the `Defaults` parameter.
- The column names, icons and class names in `meta` are presentation and are not modelled.
- `src/App.tsx` only selects the view to render, and `src/components/Newsvalue.tsx` only wraps a dropdown. Neither is modelled.

Three behaviours of the code that the model keeps as written:
- The window test is inclusive at both ends: a start equal to `startTime` or `endTime` is kept (EventsGrid.tsx:110).
- The grid size has no runtime clamp: `as GridSize` only asserts a type (EventsGrid.tsx:84).
- A hit counts as planned whenever `_relatedPlannings` is an array, even an empty one (EventsListColumns.tsx:133).

## Findings

| source | as written | input that shows it | evidently intended | confidence | as-written member | corrected member |
|---|---|---|---|---|---|---|
| src/views/EventsOverview/EventsGrid.tsx:115-117 | reads element 0 of the filtered, sorted start list without checking that the list is non-empty, and passes the result (undefined) to the time-zone conversion | window [100, 200] and a hit whose only start is 50: the list is empty (`EventsGrid.AsWrittenReadsEmptyList`) | a hit with no start in the window is skipped and gets no bucket | not executed | `EventsGrid.BucketKeyAsWritten` | `EventsGrid.BucketKey` |
