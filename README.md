# EBM class voting platform: a Dafny model of its core

The platform runs class votes. An administrator creates an event with a
number of votes per ballot (`maxVotes`). The event's candidates are
imported from a CSV file and sit in named groups. A participant, as a
learner or as an instructor, picks exactly `maxVotes` candidates of an
open event on the vote page and submits one ballot. The administrator
exports the results as CSV. Each candidate gets a vote count and a
weighted score, where an instructor's vote weighs 3 and any other vote
weighs 1. Candidates are ranked within their group.

This project models that core in Dafny and proves properties of the model.

- `Utils` (`utils.dfy`): the role weights, `parseCSV` and `generateCSV`.
  - `parseCSV` is an imperative method, proved against the function
    `ParsedRows`.
  - `generateCSV` is a function. Its partner is `CsvReader`
    (`csvreader.dfy`), a reader for the CSV dialect of section 2 of RFC 4180
    with line-feed record separators. Reading what `generateCSV` writes gives
    back every field's text.
- `JsText` (`jstext.dfy`): the JavaScript string built-ins the core relies
  on: `trim`, `split`, `join`, `String(n)`, and `toLowerCase` for ASCII
  letters only.
- `Collation` (`collation.dfy`): `localeCompare`.
- `StableSort` (`stablesort.dfy`): `Array.prototype.sort`, as a stable
  insertion sort. It is proved to be a permutation, sorted and stable.
- `Grouping` (`grouping.dfy`): the "group values by key, keys in
  first-appearance order" pattern. The import route (a `Map`) and the vote
  page (a `reduce` into an object) both use it.
- `Schema` (`schema.dfy`): the database tables as values.
  - The entities are Event, Group, Candidate, Ballot and Vote.
  - It holds lookups and the well-formedness invariant: fresh and unique
    ids, and references that resolve.
  - The Prisma writes are pure functions: `AddBallot`, `AddGroup` and
    `AddCandidates`.
- `Database` (`store.dfy`): the class `Store`. Its table fields are updated
  in place by `CreateBallot`, `CreateGroup` and `CreateCandidates`, and each
  write is proved against its `Schema` function.
- `VoteRoute` (`voteroute.dfy`): `POST /api/vote`. It holds the validation
  as a function and the handler as a method that writes to the store.
- `ExportRoute` (`exportroute.dfy`): `GET /api/admin/results/export`. It
  covers the tally, the ranks within each group, the global sort and the CSV
  body with its byte-order mark.
- `ImportRoute` (`importroute.dfy`): `POST /api/admin/candidates/import`. It
  covers the parse, the grouping loop, and the find-or-create-group and
  insert loop.
- `VotePage` (`votepage.dfy`): the state of the vote page as the class
  `Page`.
  - It covers `toggleSelect`, the remaining-votes counter, the disabled
    rule for candidate buttons, the submit rule, `Array.from(selectedIds)`
    and the grouping of candidates for display.
  - A JavaScript `Set` is a duplicate-free sequence in insertion order.

Modelling choices:
- Ids are natural numbers, handed out by the store from a counter. They
  stand for Prisma's generated ids.
- A request field that is missing, or falsy as JavaScript reads it (an
  empty string), is `None`.
- `localeCompare` is lexicographic order on characters.

The model follows the code where the code's behaviour and its stated
intent differ. The vote route's comment and error text at
src/app/api/vote/route.ts:48-52 promise a separate answer for a repeated
candidate. The count check at lines 44-46 already rejects every repeated
id, so that answer is never given. `VoteRoute.DuplicateNeverReported`
proves this, and `VoteRoute.RepeatedIdRejected` proves the request is
still rejected.

## Model

| member | source | states |
|---|---|---|
| Utils.RoleWeight | src/lib/utils.ts:1-8 | An instructor's vote weighs 3 and every other role's vote weighs 1; no other weight occurs. |
| Utils.ParseCSV | src/lib/utils.ts:23-42 | The loop returns exactly `ParsedRows`: no rows when the trimmed text has fewer than two lines, otherwise the records of the well-shaped data lines. |
| Utils.FillRow | src/lib/utils.ts:33-36 | The `headers.forEach` loop builds the record `RowOf(headers, values)`, assigning in header order; a `__proto__` header stores nothing. |
| Utils.KeptRowsSnoc | src/lib/utils.ts:30-38 | One more data line pushes its record exactly when its cell count equals the header count. |
| Utils.RowOfSpec | src/lib/utils.ts:33-36 | A parsed record's keys are exactly the header names other than `__proto__`, and such a header that is not repeated later maps to the cell at its position. |
| Utils.RowOfKeys | src/lib/utils.ts:34-36 | The keys of a filled record are the set of the headers without `__proto__`, whose assignment runs the inherited setter and stores nothing. |
| Utils.RowOfLast | src/lib/utils.ts:34-36 | A header not repeated later maps to the value at its position exactly when it is not `__proto__`: a later assignment overwrites an earlier one. |
| Utils.KeptPositionsSpec | src/lib/utils.ts:30-32 | A data line is kept exactly when it has as many cells as there are headers; kept positions ascend. |
| Utils.KeptRowsIsFilter | src/lib/utils.ts:30-39 | The k-th parsed row is the record of the k-th kept data line, so rows keep file order. |
| Utils.ParsedRowsShape | src/lib/utils.ts:24-27 | Fewer than two lines give no rows; otherwise at most one row per data line, each keyed by the trimmed, lower-cased header cells other than `__proto__`. |
| Utils.EscapeField | src/lib/utils.ts:49-54 | A field is wrapped in quotes exactly when its text holds a comma, a quote or a line feed, and is otherwise the text itself. |
| Utils.GenerateCSV | src/lib/utils.ts:44-58 | With no data the output is the header line alone. |
| Utils.EncodeCellIsEscape | src/lib/utils.ts:48-54 | A null or missing value is written as the empty field, the same as escaping the empty text. |
| Utils.NumbersUnquoted | src/lib/utils.ts:50-54 | A number's decimal text is never quoted. |
| Utils.CollapseDoubled | src/lib/utils.ts:52 | Collapsing doubled quotes undoes the doubling. |
| Utils.UnquoteEscape | src/lib/utils.ts:49-54 | Escaping is invertible: unquoting a written field gives back its text. |
| CsvReader.ReadFieldEscaped | src/lib/utils.ts:49-54 | Reading a written field gives back its text and stops at the following separator. |
| CsvReader.ReadQuotedDoubled | src/lib/utils.ts:52 | Inside quotes, a doubled quote reads as one quote and the closing quote ends the field. |
| CsvReader.ReadPlainVerbatim | src/lib/utils.ts:54 | An unquoted field with no comma or line feed reads as itself. |
| CsvReader.ReadRecordEncoded | src/lib/utils.ts:47-55 | Reading a written record gives back its fields and stops at the line feed. |
| CsvReader.ReadRecordsEncoded | src/lib/utils.ts:57 | Reading records joined by line feeds gives back every record. |
| CsvReader.GenerateCSVRoundTrip | src/lib/utils.ts:44-58 | With headers that need no quoting, reading generateCSV's output gives the header row and then, per record, the text of every field in header order. |
| JsText.Trim | src/lib/utils.ts:24 | `trim` returns a slice of its input with only whitespace cut off before and after it, and no whitespace left at either end; a string without whitespace is unchanged. |
| JsText.Split | src/lib/utils.ts:24 | `split` always gives at least one part, and no part holds the separator. |
| JsText.SplitJoin | src/lib/utils.ts:24 | Joining the parts of a split with the same separator gives back the text. |
| JsText.NatToString | src/lib/utils.ts:50 | `String(n)` is a non-empty string of decimal digits with no leading zero, unless `n` is 0. |
| JsText.IntToStringInjective | src/app/api/vote/route.ts:31 | Two integers have the same text exactly when they are equal. |
| JsText.NatToStringRoundTrip | src/lib/utils.ts:50 | The digits of `String(n)` read back as `n`. |
| Collation.CompareZero | src/app/api/admin/results/export/route.ts:76 | `localeCompare` returns zero exactly for equal strings. |
| Collation.CompareSwap | src/app/api/admin/results/export/route.ts:76 | Swapping the operands negates the comparison. |
| Collation.PrecedesTransitive | src/app/api/admin/results/export/route.ts:76 | Precedence by `localeCompare` is transitive. |
| Collation.PrecedesTotal | src/app/api/admin/results/export/route.ts:76 | Precedence is irreflexive, and of two different strings exactly one precedes the other. |
| StableSort.SortPerm | src/app/api/admin/results/export/route.ts:66 | Sorting is a permutation of the input. |
| StableSort.SortSorted | src/app/api/admin/results/export/route.ts:66 | For a strict weak order, no later element of the result sorts strictly before an earlier one. |
| StableSort.InsertPerm | src/app/api/admin/results/export/route.ts:66 | One insertion adds exactly the inserted element. |
| StableSort.InsertSorted | src/app/api/admin/results/export/route.ts:66 | Inserting into a sorted sequence keeps it sorted. |
| StableSort.SortKeepsSortedFilter | src/app/api/admin/results/export/route.ts:75-78 | A subsequence that is already in order comes out of the sort unchanged. |
| StableSort.SortStable | src/app/api/admin/results/export/route.ts:75-78 | Stability: elements the comparator treats as equal keep their input order. |
| Grouping.KeysSpec | src/app/api/admin/candidates/import/route.ts:31-40 | Each group name appears once, the names are exactly those of the rows, and a name has an empty list exactly when no row has it. |
| Grouping.BucketsCover | src/app/api/admin/candidates/import/route.ts:31-40 | Every row lands in exactly one list: the list sizes add up to the row count. |
| Grouping.BucketHolds | src/app/api/admin/candidates/import/route.ts:36-39 | Every row's value is on its key's list. |
| Grouping.RegroupedPerm | src/app/api/admin/candidates/import/route.ts:45-67 | Walking the grouped map visits every row exactly once: a permutation of the rows. |
| Grouping.GroupedPush | src/app/api/admin/candidates/import/route.ts:33-39 | One push creates the key's list on first sight, appends the value, and keeps the map equal to the grouping of the rows so far. |
| Grouping.KeysStep | src/app/api/admin/candidates/import/route.ts:33-35 | A key already seen leaves the key order unchanged; a new key is appended. |
| Grouping.TotalStep | src/app/api/admin/candidates/import/route.ts:36-39 | One more row adds one to the total of the lists of a key set exactly when its key is in the set. |
| Schema.Find | src/app/api/vote/route.ts:17-19 | A lookup by id returns a row with that id, and returns nothing exactly when no row has it. |
| Schema.FindUnique | src/app/api/vote/route.ts:17-19 | With unique ids, a lookup returns the row with that id. |
| Schema.FindAppend | src/app/api/admin/candidates/import/route.ts:52-54 | A lookup on a grown table finds the old row if there was one, and otherwise searches the new rows. |
| Schema.FindNewBallot | src/app/api/vote/route.ts:55-65 | The created ballot is found under its fresh id with the request's event and role. |
| Schema.AddBallotWellformed | src/app/api/vote/route.ts:55-65 | Creating a ballot whose event exists and whose candidates belong to that event keeps the database well formed. |
| Schema.AddGroupWellformed | src/app/api/admin/candidates/import/route.ts:52-54 | Creating a group of an existing event keeps the database well formed. |
| Schema.AddCandidatesWellformed | src/app/api/admin/candidates/import/route.ts:58-64 | Inserting candidates under an existing group keeps the database well formed. |
| Database.Store.constructor | src/app/api/vote/route.ts:55-65 | The store starts empty and well formed. |
| Database.Store.CreateBallot | src/app/api/vote/route.ts:55-65 | The tables become `AddBallot` of the old tables: one ballot with a fresh id, one vote per chosen id. The returned ballot is that row, and the store stays well formed. |
| Database.Store.CreateGroup | src/app/api/admin/candidates/import/route.ts:52-54 | The tables become `AddGroup` of the old tables and the returned group has the fresh id. |
| Database.Store.CreateCandidates | src/app/api/admin/candidates/import/route.ts:58-64 | The tables become `AddCandidates` of the old tables, and the reported count is the number of drafts. |
| VoteRoute.Message | src/app/api/vote/route.ts:9-51 | Every rejection has a non-empty error text; the count error's text starts with `請選擇 ` and the event's `maxVotes`. |
| VoteRoute.MessageInjective | src/app/api/vote/route.ts:9-51 | Two rejections have the same error text exactly when they are the same rejection, with the same limit for count errors. |
| VoteRoute.Status | src/app/api/vote/route.ts:8-67 | 200 exactly on acceptance and 404 exactly for a missing event; every other rejection is 400. |
| VoteRoute.Matching | src/app/api/vote/route.ts:37-42 | `findMany` returns at most the table's candidates. |
| VoteRoute.MatchingCount | src/app/api/vote/route.ts:37-44 | `findMany` returns one row per distinct requested id that is a candidate of the event. |
| VoteRoute.OwnershipCheck | src/app/api/vote/route.ts:37-46 | The count check passes exactly when every requested id is a candidate of the event and no id repeats. |
| VoteRoute.CoverCount | src/app/api/vote/route.ts:44 | A list's ids meet a set in as many elements as the list is long exactly when all are in the set and none repeats. |
| VoteRoute.ValidateAcceptsIff | src/app/api/vote/route.ts:8-52 | A request is accepted exactly when all fields are present, the role is valid, the event exists and is open, and the list names `maxVotes` distinct candidates of that event. |
| VoteRoute.DuplicateNeverReported | src/app/api/vote/route.ts:44-52 | The duplicate answer is never given: a repeated id has already failed the count check. |
| VoteRoute.RepeatedIdRejected | src/app/api/vote/route.ts:29-52 | A list with a repeated id is always rejected, and rejected as invalid once it passes the earlier gates. |
| VoteRoute.GuardsBeforeLookup | src/app/api/vote/route.ts:8-15 | Missing fields and an invalid role are rejected whatever the database holds. |
| VoteRoute.AcceptedWrite | src/app/api/vote/route.ts:55-65 | On acceptance the write adds one ballot for the event and role, and exactly `maxVotes` votes of it, one per chosen candidate in list order. Nothing else changes and the database stays well formed. |
| VoteRoute.SubmitVote | src/app/api/vote/route.ts:4-67 | The handler answers `Validate` of the old tables. It writes the ballot only on acceptance, leaves the tables unchanged on rejection, and keeps the store well formed. |
| ExportRoute.WeightedScoreCounts | src/app/api/admin/results/export/route.ts:53-55 | A candidate's score is its vote count plus two for every instructor vote. |
| ExportRoute.WeightedScoreBounds | src/app/api/admin/results/export/route.ts:53-55 | The score lies between the vote count and three times it, and is 0 with no votes. |
| ExportRoute.CountRole | src/app/api/admin/results/export/route.ts:53-55 | No more votes of a role than votes. |
| ExportRoute.TallySpec | src/app/api/admin/results/export/route.ts:52-63 | A tally carries the group and candidate names, the number of the candidate's votes, and the weighted score of those votes. |
| ExportRoute.GroupTallies | src/app/api/admin/results/export/route.ts:52 | One tally per candidate of the group. |
| ExportRoute.VoteRoles | src/app/api/admin/results/export/route.ts:53-54 | One role per vote of the candidate. |
| ExportRoute.ScoreOrder | src/app/api/admin/results/export/route.ts:66 | The in-group comparator (higher score first) is a strict weak order. |
| ExportRoute.Ranked | src/app/api/admin/results/export/route.ts:69-71 | One ranked row per tally. |
| ExportRoute.RankedGroupSpec | src/app/api/admin/results/export/route.ts:52-71 | A group's rows are its tallies reordered, one per candidate, with ranks 1, 2, … in order and scores that never rise as the rank grows. |
| ExportRoute.AllRowsCount | src/app/api/admin/results/export/route.ts:51-72 | The loop produces one row per candidate of the event's groups. |
| ExportRoute.RowOrder | src/app/api/admin/results/export/route.ts:75-78 | The global comparator (group name, then higher score) is a strict weak order. |
| ExportRoute.RowTransitive | src/app/api/admin/results/export/route.ts:75-78 | The global comparator is transitive. |
| ExportRoute.RowNegTransitive | src/app/api/admin/results/export/route.ts:75-78 | Incomparability under the global comparator is transitive. |
| ExportRoute.FinalRowsSpec | src/app/api/admin/results/export/route.ts:51-78 | The export has one row per candidate, is a reordering of the ranked rows, and is ordered by group name and, within a group, by score descending. |
| ExportRoute.OtherGroupsFiltered | src/app/api/admin/results/export/route.ts:51-72 | Groups with other names contribute no row under a name. |
| ExportRoute.GroupRowsFiltered | src/app/api/admin/results/export/route.ts:51-72 | With distinct group names, the rows under a group's name are exactly that group's ranked rows. |
| ExportRoute.RankedGroupSorted | src/app/api/admin/results/export/route.ts:66-78 | A group's ranked rows are already in order for the global comparator. |
| ExportRoute.GroupOrderKept | src/app/api/admin/results/export/route.ts:66-78 | With distinct group names, the global sort keeps each group's rows exactly as ranked, ranks ascending. |
| ExportRoute.ExportBodyRoundTrip | src/app/api/admin/results/export/route.ts:80-91 | The body is the byte-order mark followed by CSV. Reading that CSV gives the header row and, per final row, its rank, group, name, count and score as text. |
| ExportRoute.RowsRoundTrip | src/app/api/admin/results/export/route.ts:80 | Reading the CSV of any result rows gives the header row and each row's field texts. |
| ExportRoute.HeadersPlain | src/app/api/admin/results/export/route.ts:80 | The export's header names need no quoting. |
| ExportRoute.RowRecordTexts | src/app/api/admin/results/export/route.ts:70 | A result row's five fields are written as its rank, group, name, count and score. |
| ExportRoute.PushRanked | src/app/api/admin/results/export/route.ts:69-71 | The `forEach` appends the group's tallies with ranks 1, 2, … to the results. |
| ExportRoute.DispositionSafe | src/app/api/admin/results/export/route.ts:84-87 | `Headers.set` accepts the `Content-Disposition` value exactly when the event name and the date text hold no character above U+00FF and no NUL, CR or LF. |
| ExportRoute.SeededEventRefused | src/app/api/admin/results/export/route.ts:84-87 | For the seeded event's name, the header is refused whatever the date, so that event's export answers 500. |
| ExportRoute.PercentEncode | src/app/api/admin/results/export/route.ts:86 | Percent-encoding in UTF-8 yields only unreserved characters and `%`, never shortens the text, and leaves text of unreserved characters unchanged. |
| ExportRoute.Utf8 | src/app/api/admin/results/export/route.ts:86 | A character's UTF-8 encoding is one to four bytes: ASCII as itself, otherwise a lead byte and continuation bytes from 0x80 to 0xBF. |
| ExportRoute.EncodedDisposition | src/app/api/admin/results/export/route.ts:84-87 | The percent-encoded `filename*` header is accepted by `Headers.set` for every event name and date. |
| ExportRoute.Status | src/app/api/admin/results/export/route.ts:8-95 | 200 exactly for the CSV file, 400 exactly without an event id, 401 exactly without a session, 404 exactly for an unknown event, 500 exactly for the server error. |
| ExportRoute.ExportResults | src/app/api/admin/results/export/route.ts:6-96 | 401 without a session, 400 without an event id, 404 for an unknown event. Otherwise the CSV body of the event's final rows when `Headers.set` accepts the `Content-Disposition` value, and 500 when it throws. |
| ImportRoute.GroupNameOf | src/app/api/admin/candidates/import/route.ts:32 | A row's group is its `group` cell when non-empty and the default group otherwise; never empty. |
| ImportRoute.DraftOf | src/app/api/admin/candidates/import/route.ts:36-39 | A candidate's name is the `name` cell or the default name. Its description is the non-empty `description` cell, or null. |
| ImportRoute.Entries | src/app/api/admin/candidates/import/route.ts:31-40 | One (group, candidate) entry per row. |
| ImportRoute.EntriesSnoc | src/app/api/admin/candidates/import/route.ts:31-40 | One more row adds its entry at the end. |
| ImportRoute.FindGroupNamedSpec | src/app/api/admin/candidates/import/route.ts:47-49 | `findFirst` returns the first group of the event with the name, or nothing when there is none. |
| ImportRoute.FindGroupNamedNone | src/app/api/admin/candidates/import/route.ts:47-49 | Nothing is found exactly when no group of the event has the name. |
| ImportRoute.FindGroupNamedOld | src/app/api/admin/candidates/import/route.ts:47-55 | A group already found stays the one found after groups are added. |
| ImportRoute.FindGroupNamedNew | src/app/api/admin/candidates/import/route.ts:47-55 | With no match so far, the added groups decide. |
| ImportRoute.StagedSpec | src/app/api/admin/candidates/import/route.ts:47-55 | Find-or-create leaves the tables alone when the group exists and otherwise adds one group with the fresh id; afterwards the name's group is found. |
| ImportRoute.ImportOneSpec | src/app/api/admin/candidates/import/route.ts:45-66 | One iteration adds at most the missing group and appends the drafts as candidates of the named group; events, ballots and votes are untouched. |
| ImportRoute.ImportOneWellformed | src/app/api/admin/candidates/import/route.ts:45-66 | One iteration keeps the database well formed. |
| ImportRoute.ImportBucketsPrefix | src/app/api/admin/candidates/import/route.ts:45-67 | The group and candidate tables only grow at the end. |
| ImportRoute.ImportBucketsFound | src/app/api/admin/candidates/import/route.ts:45-67 | After the loop, every group name has a group in the event. |
| ImportRoute.ImportBucketsNew | src/app/api/admin/candidates/import/route.ts:45-55 | Each group created belongs to the event, is named after a key, and had no group before. |
| ImportRoute.ImportBucketsBound | src/app/api/admin/candidates/import/route.ts:45-55 | At most one group is created per name that had none. |
| ImportRoute.ImportBucketsPlaced | src/app/api/admin/candidates/import/route.ts:45-67 | Read candidate by candidate, the new candidates are the walk over the grouped map, and the old candidates keep their groups. |
| ImportRoute.ImportAllFrame | src/app/api/admin/candidates/import/route.ts:23-67 | An import keeps the database well formed and changes only groups and candidates, which grow by one candidate per row. |
| ImportRoute.ImportAllRows | src/app/api/admin/candidates/import/route.ts:31-67 | Each row becomes exactly one new candidate under its group's name, with its name and description; as a multiset the new candidates are the rows. Every new candidate's group is a group of the target event. |
| ImportRoute.ImportAllInEvent | src/app/api/admin/candidates/import/route.ts:45-64 | Every candidate an import inserts has a group, and that group belongs to the target event. |
| ImportRoute.ImportBucketsInEvent | src/app/api/admin/candidates/import/route.ts:45-64 | The loop inserts candidates only under groups of the event, found by `findFirst` or made by `create` for `eventId`. |
| ImportRoute.InEventStep | src/app/api/admin/candidates/import/route.ts:47-64 | One iteration keeps the earlier new candidates under groups of the event and puts its own under the name's group of the event. |
| ImportRoute.ImportAllGroups | src/app/api/admin/candidates/import/route.ts:45-55 | After an import every row's group exists in the event. A group is created only for a name the event lacked, and only once per name. |
| ImportRoute.ReimportAddsNoGroups | src/app/api/admin/candidates/import/route.ts:45-64 | Importing the same file again creates no group but inserts every candidate again. |
| ImportRoute.Status | src/app/api/admin/candidates/import/route.ts:8-69 | 200 exactly on import, 404 exactly for an unknown event, 401 exactly without a session, 400 exactly for missing parameters or a file without rows. |
| ImportRoute.ImportCandidates | src/app/api/admin/candidates/import/route.ts:6-69 | The gates are checked in the handler's order. It answers the parsed row count and imports on success, and leaves the tables unchanged otherwise. |
| ImportRoute.GroupRows | src/app/api/admin/candidates/import/route.ts:29-40 | The grouping loop yields the group names in first-appearance order, and each one's candidates in file order. |
| ImportRoute.CreateGroups | src/app/api/admin/candidates/import/route.ts:42-67 | The find-or-create and insert loop yields `ImportBuckets` of the old tables. The total is the sum of the list sizes. |
| VotePage.ToggleElems | src/app/vote/page.tsx:76-84 | A selected id is taken out. An unselected id is put in when a vote is left, and otherwise nothing changes. |
| VotePage.ToggleKeeps | src/app/vote/page.tsx:76-84 | Toggling keeps the selection duplicate-free and within the event's limit; a removal shrinks it by one. |
| VotePage.ToggleTwice | src/app/vote/page.tsx:76-84 | A second toggle of the same id restores the set. The sequence comes back unchanged when the id was unselected, and with the id moved to the end otherwise. |
| VotePage.GroupPairs | src/app/vote/page.tsx:121-127 | One (group name, candidate) pair per candidate. |
| VotePage.BucketIsFilter | src/app/vote/page.tsx:121-127 | A group's list is the candidates of that group, in list order. |
| VotePage.GroupingSpec | src/app/vote/page.tsx:121-127 | Every candidate is in its group's list, and the lists together hold every candidate exactly once. |
| VotePage.Page.constructor | src/app/vote/page.tsx:76-84 | The page starts without candidates, without event and with an empty selection. |
| VotePage.Page.Load | src/app/vote/page.tsx:54-64 | Loading stores the event's info and the candidate list and keeps the selection, which stays distinct; it is within the new limit exactly when it fits the new `maxVotes`. |
| VotePage.Page.ToggleSelect | src/app/vote/page.tsx:76-84 | The selection becomes `Toggled` of the old one, and stays duplicate-free. |
| VotePage.Page.GroupedCandidates | src/app/vote/page.tsx:121-127 | The `reduce` yields the group names in first-appearance order, and for each the candidates of that group in list order. |
| VotePage.RemainingSpec | src/app/vote/page.tsx:153 | The counter shows `maxVotes` minus the selection size, 0 without event info, and is non-negative for a non-negative limit. |
| VotePage.DisabledIffNoRoom | src/app/vote/page.tsx:205-206 | An unselected candidate's button is disabled exactly when clicking it would not select it. |
| VotePage.NegativeLimit | src/app/vote/page.tsx:76-84 | With a negative `maxVotes` the counter is negative and no button is disabled, yet no click selects anything. |
| VotePage.SelectedNeverDisabled | src/app/vote/page.tsx:205-206 | A selected candidate's button is never disabled, so it can always be deselected. |
| VotePage.SubmitSpec | src/app/vote/page.tsx:267 | Submit is enabled exactly when the event is loaded and no vote is left. The ids sent are then `maxVotes` distinct ids, the selection itself. |
| VotePage.SubmissionAccepted | src/app/vote/page.tsx:93-100 | What an enabled page submits, with a valid role, an open event with the same `maxVotes` and candidates of that event, is accepted by the vote route as sent. |

## Left out

- Network and I/O are left out: HTTP request and response objects, JSON
  parsing, cookies and the admin session check. The session check
  (`src/lib/admin-auth.ts`) is not part of this model: authentication is a
  boolean parameter of the handlers.
- The catch-all 500 answer is left out where it answers a database
  failure: the model's database operations do not fail. The export's 500
  answer for a `Content-Disposition` value that `Headers.set` refuses is
  modelled (see "## Findings").
- The error texts of the import and export routes are left out; the vote
  route's error texts are modelled. The current date in the export's file
  name is a parameter of `ExportRoute.ExportResults`, the text
  `toISOString().split('T')[0]` gives.
- Prisma generates ids (cuid). The model uses a natural-number counter
  instead; only freshness and uniqueness matter to the core.
- `localeCompare` is modelled as plain lexicographic order on characters,
  without locale collation.
- JavaScript objects as dictionaries: the grouping on the vote page
  iterates `Object.entries`. For integer-like group names that order
  differs from insertion order, and the model keeps insertion order.
- VotePage.Page.GroupedCandidates: groups into `{}`, whose inherited keys
  are not modelled. A candidate whose group name is `constructor`,
  `toString`, `__proto__` or another `Object.prototype` member finds
  `acc[name]` already set, and `.push` throws in the source
  (src/app/vote/page.tsx:121-127). The model groups such a candidate like
  any other. The same holds for `VotePage.GroupPairs` and
  `VotePage.GroupingSpec`.
- Utils.RoleWeight: `ROLE_WEIGHTS[role] || 1` (src/lib/utils.ts:7) reads
  inherited keys too, so for a role such as `constructor` the source
  returns a function, not a number. The model returns 1. The vote route
  only stores `learner` or `instructor` roles, which the model covers
  exactly.
- Database row order: the model's lookups return rows in insertion order.
  Prisma and SQL guarantee no order here, because neither the nested
  `include` of the export (src/app/api/admin/results/export/route.ts:17-36)
  nor `findFirst` of the import
  (src/app/api/admin/candidates/import/route.ts:47-49) has an `orderBy`.
  Two consequences depend on that assumption: the ranks of candidates with
  equal scores (through `StableSort.SortStable` and
  `ExportRoute.GroupOrderKept`), and which group `findFirst` picks when an
  event has two groups with the same name.
- Utils.RowOf: a record is a `{}` literal, and the only inherited key
  modelled is `__proto__`, whose setter ignores the assigned string. Other
  inherited names such as `constructor` become own keys on assignment, as
  in the model. This concerns `Utils.FillRow`, `Utils.RowOfSpec`,
  `Utils.RowOfKeys` and `Utils.ParsedRowsShape` too.
- JavaScript strings are sequences of UTF-16 code units; the model's
  strings are sequences of Unicode scalar values (`char`). A lone surrogate
  cannot be represented, and no behaviour of the core depends on one. A
  character beyond U+FFFF is one `char` here and two code units in the
  source, both above 0xFF, so `ExportRoute.HeaderSafe` refuses it as
  `Headers.set` does.
- JsText.ToLower: only ASCII letters are lower-cased. Unicode case
  mapping is not modelled, including mappings that change the length (the
  header keys at src/lib/utils.ts:27).
- The rule that a missing `maxVotes` defaults to 3 on event creation
  (src/app/api/admin/events/route.ts:33-45) is left out. The form does
  not check the sign, so `maxVotes` is an `int`.
- VotePage.RemainingSpec: the counter is non-negative only under the
  hypothesis that the limit is non-negative.
- VotePage.DisabledIffNoRoom: holds only for a non-negative `maxVotes`.
  `VotePage.NegativeLimit` states what happens otherwise.
- Partial failure in the middle of an import is left out. The handler is
  not transactional, so a failure halfway would leave some groups and
  candidates behind; the model's writes cannot fail.
- A `csvData` that is not a string is left out: the model types it as a
  string.
- The page's `fetchData` network calls, its loading and error states, the
  confirmation dialog and navigation are left out. `Page.Load` models only
  the state they set.
- ExportRoute.GroupOrderKept: needs distinct group names within the event.
  With two groups of the same name, the global sort merges their rows by
  score.
- A vote whose ballot is missing cannot occur in a well-formed database.
  The model reads its role as empty, which weighs 1; the source would fail
  on it with the 500 answer.
- `generateVoterCode` and `cn` in `src/lib/utils.ts` are left out. They
  are randomness and user-interface helpers, not part of this core.
- Numbers written by generateCSV are non-negative integers. Floating-point
  formatting by `String(value)` is not modelled.

## Findings

| source | as written | input that shows it | evidently intended | confidence | as-written member | corrected member |
|---|---|---|---|---|---|---|
| src/app/api/admin/results/export/route.ts:84-87 | The `Content-Disposition` value embeds `event.name` unencoded in `filename="…"`. `Headers.set` throws a TypeError for a character above U+00FF, and the catch answers 500. | The seeded event `114年度師資班分組報告票選` (prisma/seed.ts:9): its export answers 500 and no CSV is sent. | A download named after the event for every event name, for example the percent-encoded `filename*` parameter of section 4.3 of RFC 6266. | high; not executed | ExportRoute.SeededEventRefused | ExportRoute.EncodedDisposition |
