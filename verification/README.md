# A verified model of the OpenSearch connector for DataFusion

The connector turns a SQL scan into an OpenSearch search. It compiles the `WHERE` into query clauses,
streams the result page by page through a scroll cursor, fans large scans out over slices, turns hits
into columns, and keeps a catalog of the cluster's indices. This project models those parts in Dafny and
proves what they guarantee and where those guarantees end. `dafny verify dfyconfig.toml` checks all of it.

| file | module | content |
|---|---|---|
| `prelude.dfy` | `Prelude` | `Option`, `Result`, 64-bit bounds |
| `like.dfy` | `LikePatterns` | SQL `LIKE`, OpenSearch `prefix` and `wildcard`, the translation between them |
| `sql.dfy`, `query.dfy` | `Sql`, `QueryDsl` | documents, three-valued SQL filters, two-valued clauses |
| `pushdown.dfy` | `Pushdown` | the filter compiler |
| `exactness.dfy`, `boundaries.dfy`, `safety.dfy`, `polarity.dfy` | `Exactness`, `Boundaries`, `Safety`, `Polarity` | what the compiler preserves; the exact conditions; the two possible mistakes one at a time; which columns must be present |
| `table.dfy`, `plan.dfy` | `Table`, `ExecPlan` | search bodies, the residual filter, the scan's settings |
| `paging.dfy`, `scroll.dfy`, `slices.dfy` | `Paging`, `Scroll`, `Slices` | the scroll protocol: on values, on objects, interleaved over slices |
| `search_after.dfy` | `SearchAfter` | cursor pagination driven by the caller |
| `schema.dfy` | `Schema` | hits to columns, mappings to schemas |
| `location.dfy` | `Location` | the `LOCATION` and `sort` parsers |
| `catalog.dfy` | `Catalog` | the shared cache of tables and its races |
| `end_to_end.dfy` | `EndToEnd` | compiler, scan settings and protocol together |

## How the model reads the system

- **Documents.** A document is a partial map from field to scalar. Fields are single-valued and not
  analysed, and the index agrees with `_source`. A JSON null is an absent field. A date is a number of
  milliseconds, the unit of the connector's timestamp columns.
- **SQL.** Filters have three truth values (ISO/IEC 9075:1992, sections 8.2 to 8.6 and 8.12), and a row
  passes when its filter is true. A comparison of values of different types has no order and is
  unknown; DataFusion's analyzer makes the types equal before a filter reaches the connector, so the
  exactness results ask for well-typed columns. The results that nothing is lost do not.
- **Dialect.** SQL leaves two things open that both sides meet: the case classes of `ILIKE` (any
  representative function on characters, shared by both sides) and the reading of a dangling escape
  (the pattern is refused, or the escape stands for itself). Every result holds for every choice.
- **Literals.** `Integer` stands for the eight integer widths, which translate alike. Floats are finite
  and exact (`real`). Expressions and operators that the connector does not translate carry an arbitrary
  meaning.
- **Faithful filters.** The results of `Exactness` about whole filters ask that no literal loses anything
  that matters when it is floored to the millisecond and that no pattern ends in a dangling escape
  (`Exactness.Faithful`). For single comparisons, lists, ranges and patterns `Boundaries` shows that this
  is exactly the condition needed.
- **Safe filters.** Losing a selected row and keeping a rejected one are separate mistakes, and many filters
  that are not faithful can make only one of them. `Safety.Safe` is the condition for each side, by
  negation depth, on every document; it is exact for single comparisons, lists, ranges and patterns.
- **Server.** A scroll answers from a snapshot. It keeps the page size of its first request, may change,
  repeat or leave out its cursor id on every later response, and finds nothing for an id that is not
  open or for a slice that is not this one. The response that opens a scroll names its cursor; what
  happens otherwise is `Paging.WithoutCursorOnePage`. A missing index is an empty page.
- **Library calls.** Conversion to floats, JSON text and date parsing are parameters of the column
  builder. Of the conversion to a double three facts are used: a double is itself, an integer up to `2^53` is
  exact, and one of at least `2^63` stays a whole number of at least `2^63`.
- **Text columns.** A text column holds a string as it is and any other value as its JSON text, so a string
  that spells a value out looks like that value (`Schema.TextCellsAgreeIff`).
- **Objects.** The page state, the server and the catalog are classes with the source's fields. The plan
  settings and the table settings are values: the source clones or consumes them on every change.

## Where the code and its documentation part

The code is modelled as it is. Each point has its exact condition below.

- `must_not` also matches documents that lack the column, where SQL is undecided, although the compiler
  promises never to widen (`Boundaries.AbsentColumnWidens`, `Boundaries.AtomExactIff`, and for whole filters
  `Polarity.ExactWhereIff`).
- Literals finer than a millisecond are floored, which is exact for `>` and `<=` only
  (`Boundaries.ComparisonExactIff`, `Boundaries.BetweenExactIff`, `Boundaries.InListExactIff`). Which of
  them lose rows and which only keep too many is `Safety.AtomAgreesIff`.
- A dangling backslash in a `LIKE` pattern is dropped (`LikePatterns.ExactIffNoDanglingEscape`,
  `Boundaries.LikeExactIff`).
- A whole number beyond 64 bits is clamped in 64-bit columns, where the documentation says null
  (`Schema.CoercionIsExactOrNullIff`, `Schema.UnsignedLongClamps`).
- A raw mapping response in which any index is named `properties` or `mappings` is misread
  (`Schema.RawResponseReadIff`).
- A lookup that is waiting while a refresh drops its name leaves a stale table in the cache
  (`Catalog.StaleInsertHappens`). The cache stays within the listing until the next one is installed iff
  it is within it and no lookup in flight is for an unlisted name (`Catalog.StaysListedIff`).
- A cap that is set and lifted again leaves the plan with one partition, until partitions are asked for
  again (`ExecPlan.FanOutIsLostIff`).
- A table's `max_rows` cuts the hits before the filters left to DataFusion run, so a query may return fewer
  rows than it should (`EndToEnd.QueryExactIff`, `EndToEnd.UnlimitedQuery`).
- The caller's cursor loop stops early when those filters reject a whole page, and passes over the rest of a
  tie when a page ends inside it (`SearchAfter.ReadKeptCompleteIff`, `SearchAfter.ReadAllEnumerates`,
  `EndToEnd.PagedQuery`).
- A stream whose schema has an unsupported column fails with its cursor still open
  (`Schema.LeavesCursorOpenIff`).
- A scroll whose opening response names no cursor ends silently after one page
  (`Paging.WithoutCursorOnePage`).

## Model

| member | source | states |
|---|---|---|
| LikePatterns.LikeToClause | src/pushdown.rs:228-278 | The loop with two accumulators and two flags computes the clause that the pattern's tokens call for: `prefix` with the literal head when the only unescaped wildcard is a final `%`, else `wildcard` |
| LikePatterns.PushEscaped | src/pushdown.rs:281-286 | What is appended for a literal character, read as wildcard text, matches exactly that one character, under any case folding |
| LikePatterns.PrefixFormIff | src/pushdown.rs:224-227 | In terms of the pattern's characters: `prefix` is chosen iff the pattern ends in an unescaped `%` and no unescaped wildcard precedes it, and its value is then the literal text before the `%` |
| LikePatterns.RenderedTokensMatch | src/pushdown.rs:224-227 | Wildcard text, read with OpenSearch's `*`, `?` and backslash, matches exactly the strings SQL accepts, under any case folding |
| LikePatterns.FinalAnyIsPrefix | src/pushdown.rs:224-227 | Literals followed by one `%` accept exactly the strings with that prefix, under any case folding |
| LikePatterns.ClauseIsExact | src/pushdown.rs:224-278 | For every pattern without a dangling escape and every string, the clause matches iff SQL accepts |
| LikePatterns.TooShort | src/pushdown.rs:236-243 | For every pattern with a dangling escape, a string that the clause accepts and SQL does not, on either reading |
| LikePatterns.ExactIffNoDanglingEscape | src/pushdown.rs:236-243 | Clause and pattern agree on all strings iff the pattern has no dangling escape |
| LikePatterns.DroppedEscapeLosesNothingIff | src/pushdown.rs:236-243 | Where a dangling escape stands for itself, the clause still accepts all strings SQL accepts iff the tokens before it absorb it: a `%` before it, with only tokens between that each take all the next one takes |
| Pushdown.CollectLiterals | src/pushdown.rs:113-118 | The push loop of `IN` collects every literal in order, or nothing if one member does not translate |
| Boundaries.TranslatesIff | src/pushdown.rs:70-160 | A filter translates iff every branch of it is made of comparisons of a plain column with literals that have a value, null tests of a plain column, and `AND`, `OR`, `NOT`: all or nothing |
| Boundaries.TemporalLiteralIsItsMillisecond | src/pushdown.rs:47-53 | Every temporal literal, before or after the epoch, becomes the millisecond its instant falls in, and fails to translate iff that does not fit 64 bits, which only seconds can |
| Exactness.FlooredLiteralOrder | src/pushdown.rs:47-53 | Comparing a stored value with the translated literal gives SQL's order, except that a date equal to a floored literal is really before it |
| Sql.ComparisonMeans | src/pushdown.rs:73-97 | What each comparison operator says of two values, in terms of `<` on numbers and instants, false before true, and the first difference of two texts; values of different types are not compared |
| Exactness.ComparisonParts | src/pushdown.rs:81-97 | Either operand order is the same comparison of the column with the literal, the operator flipped when the literal comes first |
| Exactness.ComparisonClause | src/pushdown.rs:73-97 | The clause of a comparison matches as the term or range of that normalised comparison does |
| Exactness.InListTracks | src/pushdown.rs:113-125 | `IN` and `NOT IN`: the clause matches on TRUE, not on FALSE, and on UNKNOWN only where a negated column is absent |
| Exactness.BetweenTracks | src/pushdown.rs:126-135 | The same for `BETWEEN` and `NOT BETWEEN`, bounds inclusive |
| Exactness.LikeTracks | src/pushdown.rs:145-160 | The same for `LIKE`, `ILIKE` and their negations |
| Exactness.NullTestTracks | src/pushdown.rs:137-140 | `IS NULL` and `IS NOT NULL` are exact on every document |
| Exactness.JunctionTracks | src/pushdown.rs:98-109 | `AND` and `OR` of followed filters are followed, in three-valued logic |
| Exactness.TranslationTracks | src/pushdown.rs:70-160 | By induction over every faithful filter that translates: the clause follows the three-valued truth at even and at odd negation depth |
| Safety.PushdownAgreesWhereSqlDecides | src/pushdown.rs:3-7 | On every document, absent columns and ill-typed comparisons included: a filter safe at even depth matches when SQL says TRUE, so no row is lost, and one safe at odd depth does not match when SQL says FALSE |
| Safety.SafeAgrees | src/pushdown.rs:70-160 | By induction over every filter: `>=`, `=`, `IN` and `BETWEEN` with floored literals miss nothing at even depth, `<` and `!=` match nothing rejected at odd depth, and so on through `AND`, `OR`, `NOT` |
| Safety.FaithfulIsSafe | src/pushdown.rs:3-7 | A faithful filter makes neither mistake |
| Safety.AtomAgreesIff | src/pushdown.rs:51-52 | A comparison, list, range or pattern under any number of `NOT`s loses no row, or keeps no rejected row, on all documents iff it is safe on that side |
| Exactness.PushdownIsExact | src/pushdown.rs:3-7 | For every faithful filter and well-typed document where each column compared at odd negation depth is present, the clause matches iff SQL says TRUE |
| Exactness.NegationFreeIsExact | src/pushdown.rs:3-7 | Faithful filters without negation are exact on every well-typed document, absent columns included |
| Boundaries.ComparisonExactIff | src/pushdown.rs:51-52 | A comparison, in either operand order, is exact iff its literal is a whole millisecond or the operator is `>` or `<=` as seen from the column |
| Boundaries.BetweenExactIff | src/pushdown.rs:126-135 | A range, negated or not, is exact iff its lower bound is a whole millisecond or already exceeds the upper bound once floored |
| Boundaries.InListExactIff | src/pushdown.rs:113-125 | A list, negated or not, is exact iff every instant a member is floored to is itself listed |
| Boundaries.LikeExactIff | src/pushdown.rs:145-160 | A `LIKE` is exact iff its pattern has no dangling escape, save a refused `NOT LIKE` of nothing but `%` |
| Boundaries.PlainLike | src/pushdown.rs:145-160 | `LIKE` without specials is equality, character by character; only `ILIKE` looks past case; the clause agrees |
| Boundaries.AbsentColumnWidens | src/pushdown.rs:77-160 | Every atom negated an odd number of times, by `!=`, `NOT IN`, `NOT BETWEEN`, `NOT LIKE` and `NOT`, matches each document that lacks its column, where SQL says UNKNOWN |
| Boundaries.AtomExactIff | src/pushdown.rs:73-141 | A comparison, list, range or pattern under any number of `NOT`s is exact on a document iff its column is present, it is evenly negated, or it is an empty list |
| Boundaries.NegatedAtomExactIffPresent | src/pushdown.rs:141 | An oddly negated one with something to compare is exact on a document iff its column is present |
| Polarity.ExactWhereIff | src/pushdown.rs:3-7 | For faithful filters that read no column twice and whose comparisons, lists, ranges, patterns and null tests can each be true and false: exact on all well-typed documents with given columns iff every column compared at odd negation depth is among them |
| Polarity.Local | src/pushdown.rs:70-160 | Clause and truth value depend on the columns of the filter alone |
| Table.SearchBody | src/table.rs:141-163 | The body's query matches exactly the documents that pass the base filter and every translated filter; the projection is passed on, sort fields carry their direction as text, and sort and cursor are present only when set |
| Table.ScanPredicate | src/table.rs:179-190 | On one document, what index and residual filter let through together passes the base filter, contains what is wanted for safe filters, excludes what a filter rejects for safe filters, and is what is wanted for faithful ones under the polarity condition |
| Table.WholeScanIsExact | src/table.rs:141-190 | For faithful filters, on documents that meet the polarity condition, a scan returns exactly the rows that satisfy the base filter and every filter, in order and as often |
| Table.WholeScanLosesNothing | src/table.rs:176-190 | On any documents, for filters safe at even depth, a scan returns every wanted row, in order and as often |
| Table.WholeScanKeepsNoRejectedRow | src/table.rs:176-190 | On any documents, for filters safe at odd depth, a scan returns no row that a filter rejects |
| Table.FaithfulScanAgrees | src/table.rs:176-190 | For faithful filters both hold on any documents |
| Table.BaseFilterAlwaysHolds | src/table.rs:119-126 | Whatever the filters, a scan returns no row that fails the base filter |
| Table.CutThenKeepIff | src/table.rs:204-214 | Cutting after n rows and then filtering gives the first n of the filtered rows iff there are at most n rows, or all of the first n pass, or none after them does |
| ExecPlan.New | src/exec.rs:63-74 | Before any builder call a scan is one scroll of the whole result in pages of 5 000 |
| ExecPlan.ChainSettings | src/exec.rs:98-122 | After any chain of builder calls page size, fetch and single-page mode are those of the last call that set them, pushed-down limits narrowing the fetch |
| ExecPlan.EveryChainIsSound | src/exec.rs:77-122 | Any chain keeps page size and partitions at least 1, and one partition whenever a fetch or a single page is set |
| ExecPlan.FanOutIsLostIff | src/exec.rs:77-122 | After any chain of builder calls the partitions are those last asked for, or 1 iff some plan from there on needed one stream, even if the cap is lifted later |
| ExecPlan.ScanKeepsTheLeastLimit | src/table.rs:204-214 | A scan followed by any pushed-down limits has as fetch the least of all limits and the row cap, and fans out only without any |
| ExecPlan.FetchNarrows | src/exec.rs:274-280 | A sequence of pushed-down limits leaves the least of them and what was there, and changes nothing else but the partitions a fetch forbids |
| Paging.NextPageEndsRight | src/exec.rs:197-206 | Although the server keeps its first page size while the client's shrinks, a batch shorter than the client's size means the snapshot is exhausted, and a full one that the server is exactly one page further |
| Paging.StepIsRight | src/exec.rs:164-209 | Every call keeps the protocol invariant and either emits exactly the next rows wanted, 1 to page size of them, or ends with all rows delivered and nothing open |
| Paging.RunDelivers | src/exec.rs:164-217 | From any reachable state the rest of the stream concatenates to the rest of the goal |
| Paging.StreamIsComplete | src/exec.rs:164-217 | For every snapshot, page size, fetch and sequence of cursor ids, the batches concatenate to the first `fetch` hits in order, or all, or one page; none is empty or exceeds the page size |
| Paging.StreamIsDisciplined | src/exec.rs:164-209 | Over a whole stream every request carries the newest cursor id, none is used after it is cleared, the last is cleared exactly once, a single-page read opens none, there are at most rows / page size + 1 requests, and none iff the fetch is 0 |
| Paging.WithoutCursorOnePage | src/exec.rs:182-189 | When the opening response names no cursor the stream ends after one page, which is the whole result iff the result fits a page |
| Scroll.PageState.Next | src/exec.rs:164-209 | `next_page` on the objects: batch and whole new state, client's and server's, are those of the step on values |
| Scroll.PageState.Receive | src/exec.rs:171-189 | The request half of `next_page`: the search with its slice and page size, or the next page of the cursor; a new cursor id replaces the old one and a missing one does not |
| Scroll.PageState.Drain | src/exec.rs:252-259 | Reading a partition to its end emits exactly the rest of its goal and keeps the invariant |
| Scroll.PageState.ReleaseCursor | src/exec.rs:165-170 | Clears the held cursor, and only it |
| Scroll.PageState.constructor | src/exec.rs:243-250 | A partition starts with nothing requested and all of the fetch remaining |
| Scroll.Execute | src/exec.rs:236-250 | A stream starts iff the partition exists; otherwise the error names both numbers |
| Scroll.ScrollServer.Search | src/client.rs:101-120 | The first page, and a cursor exactly when one was asked for and the index exists |
| Scroll.ScrollServer.Next | src/client.rs:122-134 | The next page of the first page's size for the open cursor's id |
| Scroll.ScrollServer.Clear | src/client.rs:136-144 | The cursor of that id is gone, other state kept |
| Slices.SlicesPartition | src/exec.rs:176-178 | The slices together hold each hit exactly as often as the search does |
| Slices.StepKeeps | src/exec.rs:236-259 | A step of one partition keeps every partition's invariant |
| Slices.StepAccounts | src/exec.rs:236-259 | After every step the rows emitted are the rows the partitions have delivered, as multisets |
| Slices.EveryInterleavingIsComplete | src/exec.rs:236-259 | Over every interleaving of every number of partitions: when all have ended the rows emitted are the hits, each exactly once, and every partition has cleared its cursor |
| Slices.EmittedAreHits | src/exec.rs:236-259 | At any point of any interleaving every row emitted is a hit |
| Slices.EveryInterleavingEnds | src/exec.rs:164-209 | No interleaving takes more steps than there are hits and partitions |
| SearchAfter.KeyOfAt | src/table.rs:85-97 | Each part of a row's key is the document's value of that sort field, if it has one |
| SearchAfter.KeyOrderMeans | src/table.rs:85-90 | One key comes before another iff at the first field where they differ it has the smaller value, or the larger where the sort descends, or has one where the other has none |
| SearchAfter.TurnedOrder | src/table.rs:151-158 | Turning every direction round turns round the order of keys without absent values |
| SearchAfter.AfterMeans | src/table.rs:92-97 | The rows after a cursor are those whose fields agree with it up to one that comes later in that field's direction |
| SearchAfter.AfterIsSuffix | src/table.rs:92-97 | In any ascending or descending multi-key order, ties included, the rows strictly after a cursor are a suffix, whether or not a row stands at the cursor |
| SearchAfter.ReadAllEnumerates | src/table.rs:85-97 | From any cursor, single-page scans that feed back the last row's sort values enumerate exactly the rows after it, in order, once each, iff no page ends inside a tie; always when no two rows tie |
| SearchAfter.ReadKeptCompleteIff | src/table.rs:92-97 | Behind a filter left to DataFusion the loop returns every row after the cursor that passes iff no page without a passing row comes before one and no page ends inside a tie that goes on passing |
| SearchAfter.UnbrokenWithoutTiesIff | src/table.rs:85-97 | Without ties that is: no page-long run of failing rows before a passing one, wherever the pages fall |
| Schema.CoercionIsExactOrNullIff | src/schema.rs:143-164 | An integer slot is the number itself when it is whole and the column's width, as a power of two, holds it, and null otherwise, iff the number does not reach the 64-bit clamp |
| Schema.UnsignedLongClamps | src/schema.rs:66-68 | An `unsigned_long` from `2^63` on is shown as the largest signed number |
| Schema.MappedValueIsSeen | src/schema.rs:66-132 | For every mapping type, null, whole numbers, doubles, integers up to `2^53` in float fields, booleans and strings read through the derived column type are shown as the value itself |
| Schema.TextCellsAgreeIff | src/schema.rs:135-141 | Two values that their JSON texts tell apart look alike in a text column iff they are the same or one is a string that spells the other out |
| Schema.TimestampTruncates | src/schema.rs:109-113 | A fractional number read as a timestamp is cut towards zero, and clamped beyond 64 bits |
| Schema.BuildBatch | src/schema.rs:85-132 | Slot i of column j shows what the member of that name of source i means for the column's type, null where the source lacks it; or the first unsupported column by name |
| Schema.StreamedColumnsAreWhole | src/exec.rs:207-208 | The columns of a stream's batches, joined, are the columns of all its rows at once |
| Schema.LeavesCursorOpenIff | src/exec.rs:207 | A stream ends with its cursor open iff its schema has an unsupported column and a scroll brings a row to build |
| Schema.SlotIsShown | src/schema.rs:87-90 | Slot i of a column shows the field of the i-th source |
| Schema.ColumnOf | src/schema.rs:87-90 | Every column has one slot for each source |
| Schema.ProjectionCommutes | src/table.rs:199-203 | The batch of a projected schema is the projected batch: column i is column `picks[i]` |
| Schema.SchemaFromMapping | src/schema.rs:43-75 | Nothing iff no properties are found, else exactly one field for each property, of its name and of the type its definition names, and nothing more, each name before the next by the first character that differs |
| Schema.SchemaIsCanonical | src/schema.rs:24-26 | The schema is a name-ordered permutation of the properties' fields and does not depend on the order the mapping lists them in |
| Schema.FieldDescribes | src/schema.rs:44-48 | A property becomes a field of its name, Int64, Float64, Boolean, timestamp or text by the mapping type its definition names |
| Schema.EveryShapeIsRead | src/schema.rs:54-63 | A bare `properties`, a bare `mappings` with or without its wrapper, and a raw response of any number of indices, by its first, all yield the same properties |
| Schema.EveryShapeHasOneSchema | src/schema.rs:24-26 | Raw responses of any indices, the wrapped and the bare mapping and the bare properties, each with the properties in any order, have one and the same schema |
| Schema.RawResponseReadIff | src/schema.rs:54-63 | A raw response is read by its first index for all mappings iff none of its indices is named like one of the keys |
| Location.SplitLocationIff | src/table.rs:331-344 | A location parses to (base, index) iff it is `base/index` and any number of slashes, the base has `://` somewhere in it and does not end in `:` or `/`, and the index is one non-empty segment; the error names the location |
| Location.SortRoundTrip | src/table.rs:347-360 | Printing any list of sort fields, colons inside and blanks around allowed, and parsing it returns the list |
| Location.SortRefusedIff | src/table.rs:351-356 | A sort is refused iff an entry ends in a colon and no direction; the first such one is reported |
| Location.SplitParts | src/table.rs:348 | The entries are comma-free and join back to the text |
| Location.BlankCharacters | src/table.rs:349 | Blanks are the 25 characters of Unicode white space |
| Location.TrimIs | src/table.rs:349 | Trimming takes blanks off both ends and nothing else |
| Location.BlankEntryIsDropped | src/table.rs:350 | A blank sort entry counts for nothing |
| Catalog.SchemaProvider.constructor | src/catalog.rs:40-47 | Starts with the listing and an empty cache |
| Catalog.SchemaProvider.TableExist | src/catalog.rs:85-87 | True iff the name is listed |
| Catalog.SchemaProvider.LookUp | src/catalog.rs:69-83 | With nothing in between: unlisted names have no table, cached ones are returned as they are, others are built for their own name with the columns fetched and cached; an error is passed on and changes nothing |
| Catalog.SchemaProvider.Refresh | src/catalog.rs:50-55 | With nothing in between: the new listing is installed and exactly the cached tables it names survive; an error changes nothing |
| Catalog.SchemaProvider.Retain | src/catalog.rs:52 | Exactly the listed cached tables survive |
| Catalog.UndisturbedLookUp | src/catalog.rs:69-83 | The interleaved model's steps of one lookup, with none between them, have the effect and answer that the `LookUp` method promises |
| Catalog.UndisturbedRefresh | src/catalog.rs:50-55 | The steps of one refresh, with none between them, have the effect that the `Refresh` method promises |
| Catalog.StepKeeps | src/catalog.rs:50-83 | Every step of every call keeps the cache invariant |
| Catalog.CacheIsSafe | src/catalog.rs:50-83 | Over every interleaving: each cached table is of its key, with columns the cluster answered for it; a cached key missing from the listing was checked before the latest install and inserted after the latest retain |
| Catalog.FetchedIsReceived | src/catalog.rs:76-81 | The columns that count as answered come from a received mapping |
| Catalog.StaysListedIff | src/catalog.rs:49-55 | From every state, the cache holds only listed tables whatever runs before the next install iff it does now and no lookup in flight, at any of its steps, is for an unlisted name |
| Catalog.AnswersAreListed | src/catalog.rs:69-83 | Over every interleaving: each table returned is of the index asked for, with columns the cluster answered for it, and listed if its check came after the latest install |
| Catalog.StaleInsertHappens | src/catalog.rs:69-83 | An interleaving after which a table is cached under an unlisted name |
| EndToEnd.QueryExactIff | src/table.rs:204-214 | For faithful filters on documents that meet the polarity condition: with any limit and any cap, one scroll returns that many wanted rows from the front iff the cap leaves no hit out, or every hit before it passes the filters left to DataFusion, or none after it does |
| EndToEnd.UnlimitedQuery | src/lib.rs:3-10 | Without a limit it returns exactly all wanted rows, in order, iff no row that passes lies beyond the table's cap |
| EndToEnd.LimitedQuery | src/table.rs:204-214 | When every filter translates, it returns the wanted rows from the front, as many as limit and cap allow, each optional |
| EndToEnd.QueryLosesNothing | src/lib.rs:3-10 | On any documents, for filters safe at even depth, a query without limit or cap returns every wanted row, in order and as often |
| EndToEnd.PagedQuery | src/table.rs:92-97 | The caller's loop over a table with sort and cursor returns exactly the wanted rows after the cursor, ties allowed, iff no page that the filters left to DataFusion reject comes before a row they pass and no page ends inside a tie that goes on passing; moving the cursor changes nothing else of the scan |
| EndToEnd.PagedQueryIsExact | src/table.rs:85-97 | When every filter translates and no two documents tie, the loop returns exactly the wanted rows after the cursor |
| EndToEnd.BaseFilterHoldsInEveryStream | src/table.rs:119-126 | For any filters, limit, cap, cursor and partition, no row handed over fails the base filter |
| EndToEnd.BaseFilterHoldsInEveryInterleaving | src/table.rs:119-126 | The same for any number of slices, at every point of every interleaving |
| EndToEnd.SlicedQuery | src/table.rs:111-117 | Fanned out over slices, in any interleaving, they return exactly the wanted rows, each as often |
| EndToEnd.SlicedQueryLosesNothing | src/table.rs:111-117 | On any documents, for filters safe at even depth, the fanned-out query returns every wanted row as often, in any interleaving |

## Left out

- HTTP, authentication, status codes and the JSON of responses (src/client.rs): a page is a list of hits and an optional cursor id.
- Network errors in the middle of a scan and cursors that expire: every request is answered.
- The full-text and geo predicates (src/udf.rs and their arms in src/pushdown.rs): their meaning is OpenSearch's analysers and geometry, and the in-memory versions differ from it on purpose.
- Multi-valued and `text`-mapped fields: a `term` on these means something other than SQL equality.
- Rounding, NaN, infinities and single precision: literals and numbers are finite reals; the conversions are parameters.
- Unicode case folding, ISO 8601 parsing and JSON text: parameters.
- `int_column` rejecting infinite doubles: JSON numbers are finite.
- `RecordBatch::try_new` checks, Arrow buffers, metrics, EXPLAIN display and DataFusion's planner: library behaviour.
- `create` and `parse_usize` of the table factory, and the provider's own builders: option plumbing; their results are arbitrary settings here.
- The cursor of `search_after` as JSON: the paging loop feeds typed sort values back in, absent ones included.
- A stream that its consumer drops before the end: its cursor is left to the server's expiry.
- The sort of a schema is the library's, modelled as an insertion sort; the plan's builders and `truncate_to_fetch` are on values, so the cloning of the plan and truncation in place are not captured.
- A filter that reads a column twice, or has a part that is always true or always false, may be exact by accident where odd columns are absent: the converse for whole filters is stated for the others.
