# NexSync chat commands and list views, modelled in Dafny

NexSync is a task tracker driven by a Telegram bot. Team members post messages such as
`/task #tgaf P1 Fix login button`. The bot parses the text, creates the user and the
project on first sight, stores the task, note or auth key, and replies in the chat. A web
dashboard lists those rows with search, filters, sorting, pagination and a completion
heat map.

This project models:

- the bot's command interpreter: text extraction, priority detection, description
  cleaning, project-name resolution, user provisioning and the `/update` reply;
- the dashboard's client-side logic: pagination arithmetic, heat-map counting and week
  layout, the filter and sort pipelines of the task, note and auth-key tables, and the
  login input schema.

Every command is a pure function from the database and the incoming message to the new
database and the list of chat side effects (`Reply` and `PrivateSend`), in the order the
handler performs them. The files:

- `wrappers.dfy`: `Option`.
- `text.dfy`: JavaScript string operations on `seq<char>`, written out:
  - `replace` of a literal, which removes the first occurrence only;
  - the global regex replacements `@\w+`, `#\w+` and `#\w+|\b(P[1-3]|UI|UX|BUG)\b`;
  - `match` for the first tag and the first priority token;
  - `trim`, ASCII `toLowerCase` and `includes`.

  `\w` is `[A-Za-z0-9_]`. Word boundaries are judged on the input string, as a global
  replacement does.
- `replies.dfy`: what the bot says. Each effect records a `Notice`, a value that names
  the message and carries what it interpolates. `Wording` gives the exact text the
  handler sends.
- `store.dfy`: the rows (users, projects, tasks, notes, auth keys), the database with its
  validity invariant, the incoming message and the side effects.
- `resolvers.dfy`: `checkLogin` and `getProjectId`.
- `updates.dfy`: the grouping and formatting of the `/update` reply.
- `commands.dfy`: the handlers of `commands.ts` and the dispatch of `useCommands`. Each
  write command is `CommandBody` (the text extraction) followed by a `Save…` function
  that acts on the extracted body.
- `pagination.dfy`: the pagination bar.
- `heatmap.dfy`: the completion heat map.
- `seqs.dfy`: `filter` and the subsequence relation.
- `listing.dfy`: the note and auth-key tables.
- `tasktable.dfy`: the task table.
- `loginschema.dfy`: the `loginInput` schema.

Where the code behaves differently from what a reader might expect, the model follows the code:

- Tags are not upper-cased. The project name keeps the case of the tag
  (`Resolvers.ProjectNameFor`).
- The "Invalid priority" reply cannot be sent, because the extraction regex only matches
  the six valid names (`Commands.InvalidPriorityUnreachable`).
- Every tag and every priority token is removed from a task description, not only the
  first of each. No tag and no standalone priority token is left afterwards
  (`Commands.TaskDescription`).
- The empty-body check looks at the text before tags are removed. A message holding only
  a tag still stores a task, with an empty description
  (`Commands.TagOnlyTaskHasEmptyDescription`).
- The result of `checkLogin` is ignored by the three write commands
  (`Commands.TaskIgnoresLogin`).
- `getProjectId` strips `/task` from the text whatever the command, so `/note` and
  `/auth` texts are searched for a tag with their own keyword still in place.
- `/update` groups rows in a plain object literal. A project named after an inherited
  `Object.prototype` member, such as `constructor` or `toString`, finds a function instead
  of an array, so `push` throws. The handler then fails after `checkLogin`, and no reply is
  sent (`Updates.InheritedNameSilencesReply`).

## Model

| member | source | states |
|---|---|---|
| `Text.TrimSpec` | server/src/bot/commands/commands.ts:68 | the result is the piece of the input between an all-whitespace prefix and an all-whitespace suffix, and does not start or end with whitespace |
| `Text.TrimIdempotent` | server/src/bot/commands/commands.ts:68 | trimming twice is trimming once |
| `Text.RemoveFirst` | server/src/bot/commands/commands.ts:68 | `replace` with a string pattern deletes exactly the first occurrence and leaves a string without one unchanged |
| `Text.RemoveRunsLeavesNoRun` | server/src/bot/commands/commands.ts:68 | after the global `@\w+` replacement no mention is left |
| `Text.RemoveRunsKeepsRest` | server/src/bot/commands/commands.ts:68 | the global `<sigil>\w+` replacement keeps exactly the characters that no match covers, in order: its output is the input filtered by the reference set of matched indices |
| `Text.RemoveRunsIdempotent` | server/src/bot/commands/commands.ts:155 | the global run removal changes nothing in a text without runs, so applying it twice is applying it once |
| `Text.NoRunTrim` | server/src/bot/commands/commands.ts:155 | trimming cannot create a run |
| `Text.FirstRun` | server/src/bot/commands/commands.ts:220 | the first `#\w+` match is absent exactly when the text has no tag; otherwise it is the leftmost match, taken greedily to the end of its word |
| `Text.TokenAt` | server/src/bot/commands/commands.ts:69 | the alternatives `P1`..`BUG` are tried in order and the one found occurs at that position |
| `Text.FirstPriority` | server/src/bot/commands/commands.ts:69 | none is found exactly when no position holds a bounded token; a found priority is one of the six names and is the token at the leftmost such position |
| `Text.CleanLeavesNoTag` | server/src/bot/commands/commands.ts:80 | after removing tags and priority tokens no tag remains |
| `Text.CleanLeavesNoToken` | server/src/bot/commands/commands.ts:80 | after removing tags and priority tokens no standalone priority token remains, not even one formed by joining the text around a removed piece |
| `Text.TrimNoToken` | server/src/bot/commands/commands.ts:80 | trimming a text without standalone priority tokens cannot create one |
| `Text.CleanKeepsRest` | server/src/bot/commands/commands.ts:80 | the combined tag-and-priority replacement keeps exactly the characters that no tag and no standalone token covers, in order |
| `Text.CleanIdentity` | server/src/bot/commands/commands.ts:80 | a text with no tag and no priority token is left unchanged |
| `Text.Includes` | client/src/components/ui/Task/TaskTable.tsx:79-80 | `includes` holds exactly when the needle occurs somewhere in the text |
| `Text.MatchesIgnoringCase` | client/src/components/ui/Note/NoteTable.tsx:57-58 | the lower-cased text contains the lower-cased needle; the empty needle always matches |
| `Text.MatchesIgnoringCaseSpec` | client/src/components/ui/Note/NoteTable.tsx:57-58 | a match holds exactly when some position has the needle's characters, compared letter by letter without case |
| `Store.PriorityFromName` | server/src/bot/commands/commands.ts:75 | on the names `createTask` can pass, `TaskPriority[name]` is a member exactly for the six names, and then the member of that name |
| `Store.PriorityNameRoundTrip` | server/src/bot/commands/commands.ts:75 | every member's name looks it up again |
| `Store.CreatedBy` | server/src/bot/commands/commands.ts:85 | `username \|\| "unknown"`: the username when it is set and non-empty, otherwise `unknown` |
| `Store.EmptyDbValid` | server/src/bot/commands/commands.ts:223-237 | the empty database satisfies the uniqueness and foreign-key invariant |
| `Replies.CredentialsShowLogin` | server/src/bot/commands/commands.ts:203-207 | the private credentials message shows the stored username and password |
| `Replies.WelcomeShowsDefaultPassword` | server/src/bot/commands/commands.ts:269-273 | a new user's welcome message shows the username and the default password |
| `Replies.ProjectNoticeNamesProject` | server/src/bot/commands/commands.ts:238-242 | the new-project notice names the project, with either wording |
| `Store.AddProjectValid` | server/src/bot/commands/commands.ts:230-237 | creating an unknown project under the next id keeps the database valid, adds exactly one project and stores the new id |
| `Store.AddUserValid` | server/src/bot/commands/commands.ts:263-266 | adding an unknown user under its own name keeps the database valid, adds exactly one user and changes nothing else |
| `Store.AppendTaskValid` | server/src/bot/commands/commands.ts:82-89 | appending a task that points at a stored project keeps the database valid and only adds |
| `Store.AppendNoteValid` | server/src/bot/commands/commands.ts:156-162 | the same for a note |
| `Store.AppendAuthKeyValid` | server/src/bot/commands/commands.ts:175-181 | the same for an auth key |
| `Resolvers.CheckLoginSpec` | server/src/bot/commands/commands.ts:248-285 | the missing-id error and the missing-username error each return false without a write; otherwise true, with the user created only when absent, with password `12345678`, a private welcome and the chat notice that depends on delivery |
| `Resolvers.CheckLoginPreserves` | server/src/bot/commands/commands.ts:258-281 | `checkLogin` keeps the database valid, adds at most one user and changes nothing else |
| `Resolvers.CheckLoginIdempotent` | server/src/bot/commands/commands.ts:258-266 | a second call for the same sender creates nothing and sends nothing |
| `Resolvers.FailedSendKeepsUser` | server/src/bot/commands/commands.ts:264-278 | a failed private send does not undo the created user and is reported in the chat |
| `Resolvers.ProjectNameForSpec` | server/src/bot/commands/commands.ts:218-221 | the project name is the leftmost tag's whole word without its `#`, case kept, and `GENERAL` when there is no tag |
| `Resolvers.ResolveProject` | server/src/bot/commands/commands.ts:223-245 | an existing project is returned with no write and no notice; otherwise exactly one project is created under the next id, with the creator's name, and announced with the `GENERAL`-specific wording |
| `Resolvers.ResolveProjectPreserves` | server/src/bot/commands/commands.ts:223-245 | resolution keeps the database valid, adds at most one project and returns the id of a stored project |
| `Resolvers.ResolveProjectIdempotent` | server/src/bot/commands/commands.ts:223-228 | resolving the same text again finds the project: same id, no write, no notice |
| `Updates.Label` | server/src/bot/commands/commands.ts:127 | the group label is never empty: a missing or empty project name falls back to `🗂️ Uncategorized` |
| `Updates.LabelsSpec` | server/src/bot/commands/commands.ts:126-131 | the group labels are distinct and are exactly the labels of the rows |
| `Updates.GroupRowsMatchesExpected` | server/src/bot/commands/commands.ts:126-131 | the `reduce` yields one group per label in order of first appearance, each holding exactly its rows' descriptions in row order |
| `Updates.ReduceSpec` | server/src/bot/commands/commands.ts:126-131 | the `reduce` throws exactly when some row's label is an inherited `Object.prototype` member, and otherwise yields the expected groups |
| `Updates.GroupRowsSize` | server/src/bot/commands/commands.ts:126-131 | every row lands in exactly one group |
| `Updates.UpdatesReply` | server/src/bot/commands/commands.ts:121-143 | an empty result gives exactly the "no updates" line; a non-empty one gives no reply when the grouping throws, and otherwise text that starts with the header |
| `Updates.UpdatesReplyGrouped` | server/src/bot/commands/commands.ts:133-143 | when the grouping does not throw, a non-empty reply is the header followed by one section per expected group |
| `Updates.InheritedNameSilencesReply` | server/src/bot/commands/commands.ts:126-131 | a row whose project is named `constructor` makes `/update` send no reply |
| `Commands.CommandBody` | server/src/bot/commands/commands.ts:68 | the body has no `@` mention left, and is the text after the keyword removal with exactly the mention characters dropped, the rest in order, trimmed |
| `Commands.CommandBodyTrimmed` | server/src/bot/commands/commands.ts:68 | the body neither starts nor ends with whitespace |
| `Commands.AckIndex` | server/src/bot/commands/commands.ts:90-91 | the index is the floor of `Math.random() * 6`, so it is one of the six acknowledgements |
| `Commands.AckIndexReachesEvery` | server/src/bot/commands/commands.ts:90-91 | every one of the six acknowledgements is picked for some random value |
| `Commands.TaskPriorityName` | server/src/bot/commands/commands.ts:69-70 | the priority is one of the six names: `P3` when the body has no standalone token, otherwise the token at the leftmost position holding one |
| `Commands.TaskDescription` | server/src/bot/commands/commands.ts:80 | the stored description contains no tag and no standalone priority token, and is the body with exactly the tag and token characters dropped, the rest in order, trimmed |
| `Commands.SaveTask` | server/src/bot/commands/commands.ts:68-93 | for the body extracted by `CommandBody`, an empty body gives exactly `checkLogin`'s store and messages, with no project resolved; otherwise exactly one task is appended; notes and keys are untouched and no earlier task changes |
| `Commands.SaveTaskStores` | server/src/bot/commands/commands.ts:79-91 | the appended task carries the cleaned description, the extracted priority, the creator, the resolved project's id and `completed = false`; the store is `getProjectId`'s plus that task alone, and the last reply is an acknowledgement |
| `Commands.InvalidPriorityUnreachable` | server/src/bot/commands/commands.ts:68-77 | the extracted priority always names a member, so the effects are those of `checkLogin`, then the project notice and the acknowledgement |
| `Commands.SaveTaskPreserves` | server/src/bot/commands/commands.ts:67-93 | `/task` keeps the database valid and only adds |
| `Commands.TagOnlyTaskHasEmptyDescription` | server/src/bot/commands/commands.ts:79-80 | a body that is one tag stores a task with an empty description |
| `Commands.TaskIgnoresLogin` | server/src/bot/commands/commands.ts:73-85 | a sender without a username gets the error and the task is stored anyway, created by `unknown` |
| `Commands.NoteContent` | server/src/bot/commands/commands.ts:155 | note content has no tag, and is the body with exactly the tag characters dropped, the rest in order, trimmed |
| `Commands.SaveNote` | server/src/bot/commands/commands.ts:148-165 | for the body extracted by `CommandBody`, an empty body gives exactly `checkLogin`'s store and messages, with no project resolved; otherwise exactly one note is appended; tasks and keys are untouched |
| `Commands.SaveNoteStores` | server/src/bot/commands/commands.ts:153-163 | the appended note carries the tag-free body, the creator and the resolved project's id; the store is `getProjectId`'s plus that note alone, and the messages are exactly `checkLogin`'s, the project notice and `📝 Noted` |
| `Commands.SaveNotePreserves` | server/src/bot/commands/commands.ts:147-165 | `/note` keeps the database valid and only adds |
| `Commands.NoteKeepsPriorityTokens` | server/src/bot/commands/commands.ts:155 | a trimmed body without tags is stored unchanged, priority tokens included |
| `Commands.SaveAuthKey` | server/src/bot/commands/commands.ts:168-184 | for the body extracted by `CommandBody`, an empty body gives exactly `checkLogin`'s store and messages, with no project resolved; otherwise exactly one key is appended; tasks and notes are untouched |
| `Commands.SaveAuthKeyStores` | server/src/bot/commands/commands.ts:173-182 | the appended key carries the body itself, the creator and the resolved project's id; the store is `getProjectId`'s plus that key alone, and the messages are exactly `checkLogin`'s, the project notice and `🔑 Noted` |
| `Commands.SaveAuthKeyPreserves` | server/src/bot/commands/commands.ts:167-184 | `/auth` keeps the database valid and only adds |
| `Commands.AuthKeyDropsMentionRuns` | server/src/bot/commands/commands.ts:168 | the mention removal also eats the middle of an e-mail address: `a@b.com` becomes `a.com` |
| `Commands.GetUpdates` | server/src/bot/commands/commands.ts:95-144 | `/update` writes only what `checkLogin` writes and sends exactly `checkLogin`'s messages followed by the grouped reply, or the "no updates" line for no rows; when the grouping throws it sends only what `checkLogin` sent |
| `Commands.GetLoginSpec` | server/src/bot/commands/commands.ts:186-215 | without an id only the error reply; otherwise `checkLogin`, then for a sender with a username exactly `checkLogin`'s messages followed by the stored credentials privately and the delivery notice |
| `Commands.GetLoginPrivateSends` | server/src/bot/commands/commands.ts:195-213 | a new user gets two private messages and the default password; a known user gets exactly one, with the stored password, and no write |
| `Commands.HelpListsEveryCommand` | server/src/bot/commands/commands.ts:10-65 | the help text has one entry per registered command, in registration order, and contains each entry's line |
| `Commands.HandlePreserves` | server/src/bot/commands/useCommands.ts:4-12 | every registered command keeps the database valid and never deletes or edits a row |
| `Commands.HandleAllPreserves` | server/src/bot/commands/useCommands.ts:4-12 | any sequence of commands from a valid database keeps it valid and loses no row |
| `Pagination.TotalPages` | client/src/components/lazy/Pagination.tsx:18 | the page count holds every item, and one page fewer would not |
| `Pagination.TotalPagesUnique` | client/src/components/lazy/Pagination.tsx:18 | those two bounds determine the count: it is the ceiling of the quotient |
| `Pagination.FlagsMatchNeighbours` | client/src/components/lazy/Pagination.tsx:19-20 | on an existing page the flags hold exactly when the previous or next page exists |
| `Pagination.EmptyList` | client/src/components/lazy/Pagination.tsx:18-20 | no items means no pages, and on page 0 both flags are off |
| `Pagination.DisplayedRange` | client/src/components/lazy/Pagination.tsx:43-44 | the end of the range never exceeds the item count |
| `Pagination.RangeBounds` | client/src/components/lazy/Pagination.tsx:43-44 | on an existing page the range is non-empty, inside `1..totalItems` and at most one page long |
| `Pagination.RangeIsPage` | client/src/components/lazy/Pagination.tsx:43-44 | on an existing page the range covers exactly the positions of the items on that page |
| `Pagination.NavigationStaysInRange` | client/src/components/lazy/Pagination.tsx:49-86 | an enabled button moves from an existing page to a different existing page |
| `Pagination.AllDisabledIffSinglePage` | client/src/components/lazy/Pagination.tsx:49-86 | all four buttons are disabled exactly when there is one page |
| `Pagination.PageSizeChangeKeepsIndex` | client/src/components/ui/Task/TaskTable.tsx:164 | a page-size change keeps the page index, so 15 items on page 1 at 10 per page show the range 21-15 after switching to 20 per page |
| `Pagination.PageSizeChangeValidIff` | client/src/components/ui/Task/TaskTable.tsx:164 | after any page-size change the kept index names an existing page exactly when that page's first item exists at the new size |
| `Pagination.ButtonKeepsStateValid` | client/src/components/ui/Task/TaskTable.tsx:163 | button navigation keeps the table's page state on an existing page |
| `HeatMap.GetColorBuckets` | client/src/components/ui/Dashboard/TaskHeatMap.tsx:134-140 | every count gets a palette colour; 0 is gray, and exactly the counts 1-2, 3-5, 6-8 and 9 or more get the four greens from lightest to darkest; more completions never give a lighter colour |
| `HeatMap.DaysBetween` | client/src/components/ui/Dashboard/TaskHeatMap.tsx:52 | the period's days, each once, in order |
| `HeatMap.HeatmapDataCounts` | client/src/components/ui/Dashboard/TaskHeatMap.tsx:48-79 | one cell per day of the period, in order, each counting exactly the completed tasks last updated that day |
| `HeatMap.HeatmapTotal` | client/src/components/ui/Dashboard/TaskHeatMap.tsx:55-76 | for every period, an empty one included, the cells add up to the number of completed tasks dated inside it |
| `HeatMap.GridStart` | client/src/components/ui/Dashboard/TaskHeatMap.tsx:91-95 | the grid starts on the Sunday on or before the period's first day |
| `HeatMap.LookupLoaded` | client/src/components/ui/Dashboard/TaskHeatMap.tsx:113-116 | a grid day inside the period shows its count and a padded day shows 0 |
| `HeatMap.GridCellsCounts` | client/src/components/ui/Dashboard/TaskHeatMap.tsx:97-116 | the grid's cells are consecutive days from that Sunday; padded days count 0 and period days their completions |
| `HeatMap.ChunkWeeks` | client/src/components/ui/Dashboard/TaskHeatMap.tsx:100-128 | the weeks concatenate back to the grid; every week is non-empty and every week but the last ends on a Saturday; from a Sunday every week but the last has seven days |
| `Seqs.FilterIsSubsequence` | client/src/components/ui/Task/TaskTable.tsx:72-81 | `filter` keeps the input order |
| `Seqs.FilterFuse` | client/src/components/ui/Task/TaskTable.tsx:69-84 | two filters in a row select what one filter by the conjunction selects |
| `Listing.HeaderName` | client/src/components/ui/Note/NoteTable.tsx:46-49 | the header is the project name of the first row whose project has the page's id, and the fallback when no row does |
| `Listing.HeadersAgree` | client/src/components/ui/AuthKey/AuthKeyTable.tsx:46-49 | the note and auth-key headers agree when a row matches and fall back to `All Notes` and `All Auth Keys` otherwise |
| `Listing.StepsSelectKept` | client/src/components/ui/Note/NoteTable.tsx:54-65 | the search step (for any non-empty, untrimmed text) and the active step together keep exactly the rows the reference predicate accepts |
| `Listing.SortNewestFirstSpec` | client/src/components/ui/Note/NoteTable.tsx:67-70 | the sort is a permutation into newest-first order and keeps rows of equal time in input order |
| `Listing.FilteredEntriesSpec` | client/src/components/ui/AuthKey/AuthKeyTable.tsx:51-68 | the table shows exactly the loaded rows both filters keep, as a permutation, newest first, ties in fetch order |
| `TaskTable.Header` | client/src/components/ui/Task/TaskTable.tsx:63-66 | the header is the first matching task's project name, else `Unknown` |
| `TaskTable.FilteredTasksSpec` | client/src/components/ui/Task/TaskTable.tsx:69-84 | the table shows, in fetch order, exactly the tasks with the chosen completion status that match a search containing some non-whitespace character |
| `TaskTable.InitialPaginationValid` | client/src/components/ui/Task/TaskTable.tsx:116-119 | the initial page size is a selectable one, and page 0 exists once a task is shown |
| `LoginSchema.Utf16LengthBounds` | client/src/shared/zod.ts:4-5 | a character takes one or two code units, and an all-BMP string's length is its character count |
| `LoginSchema.ValidateLogin` | client/src/shared/zod.ts:3-6 | the input is accepted exactly when the username has 3 or more code units and the password 8 or more; a rejection lists exactly the failed rules, once each, the username's first |
| `LoginSchema.DefaultPasswordAccepted` | client/src/shared/zod.ts:5 | the bot's default password `12345678` is exactly 8 long and is accepted with any valid username |

## Left out

- Chat transport: the grammy context, `ctx.reply` and `ctx.api.sendMessage` become `Reply` and `PrivateSend` effects. All private sends of one command share one success flag on the message. A failing public reply is not modelled.
- `Math.random` becomes a real number `rand` with `0 <= rand < 1` on the message.
- Persistence: Prisma becomes in-memory maps and append-only sequences. The find-then-create race in `getProjectId` and `checkLogin` and the concurrency of several bot instances are not modelled. Database ids are consecutive naturals instead of generated strings.
- Dates: `getUpdates` receives today's completed tasks already selected and ordered by the query, since `startOfDay`/`endOfDay` and server-local time need a calendar. The heat map uses day numbers, with day 0 a Sunday, instead of `Date` objects. The period bounds come from the caller, not from the clock. The month labels (`monthPositions`) are not modelled.
- `Updates.GroupRowsMatchesExpected`: `Object.entries` lists integer-like keys (a project named `123`) before the others; the model uses plain first-appearance order for every name. Inherited keys are listed by name in `Updates.InheritedKeys`; keys that other code adds to `Object.prototype` are not modelled.
- `Store.PriorityFromName`: gives `None` for every other string, while `TaskPriority` is a plain object on which the inherited `Object.prototype` names (`constructor`, `toString`, ...) are also defined. `createTask` only passes one of the six names, so its behaviour is unaffected.
- `Text.MatchesIgnoringCase`: `toLowerCase` is modelled for ASCII letters only; Unicode case mapping is not modelled.
- `Listing.SortNewestFirstSpec`: the in-place mutation of the fetched array by `sort` is not modelled. Invalid dates (`NaN` times) are not modelled.
- The message text is always present. A missing `ctx.message.text` is not modelled.
- Markdown `parse_mode` of the `/update` reply and the rendering of every view are not modelled.
- `Pagination.TotalPages`: requires a positive page size; every caller passes one of the selectable sizes or the initial 30, and a zero size would make the JavaScript count `Infinity`.
- REST controllers, JWT authentication, environment validation, routing and the zustand store are outside this model.
