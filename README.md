# ScrapeWise in Dafny

ScrapeWise is an ASP.NET MVC web scraper. A signed-in user creates a scraping
job: a target URL and a CSS-like selector. The job is fetched once, the
selector is translated to an XPath query, and every matched node with
non-blank text becomes a stored result. Progress is broadcast over SignalR.
Jobs carry tags, results can be paged and exported as CSV, and administrators
manage users.

The repository holds two code trees, and this project models the controllers
of both:

- **The `src/` tree** uses ASP.NET Identity users (`MyUser`, string keys). It
  covers scraping (`JobsController`), results, paging and CSV
  (`ResultsController`), tags (`TagsController`) and `TagService`.
  - State: the `Store.AppDb` class (users, jobs, results, tags and the
    `ScrapingJobTags` join table) and the `Store.Hub` class (the SignalR
    messages sent).
- **The root tree** uses a custom `User` entity with int keys. It covers
  login and registration (`AccountController`), user administration
  (`AdminController`), the JSON API (`ApiController`) and an older
  `TagsController`.
  - State: the `LegacyStore.LegacyDb` class.

Both databases are classes whose fields the controller methods update in
place:

- **Keys:** identity columns are modelled as `next*Id` counters. Every table is
  kept in ascending key order, with every key below its counter.
- **Foreign keys:** every foreign key resolves. The delete cascades of the
  initial migration are written out:
  - deleting a user deletes their profile and jobs;
  - deleting a job deletes its results and join rows;
  - deleting a tag deletes its join rows.
  - Each state-changing method keeps `Valid()` and states its whole new state.
- **Pure actions:** read-only actions and pure helpers are functions. Their
  properties are proved as lemmas:
  - the selector translation and the XPath class-token theorem;
  - CSV escaping and its inverse;
  - the newest-first sort;
  - 32-bit paging arithmetic;
  - the owner-or-admin gate;
  - round trips such as "register, then log in".

**Modules:**

| module | file |
|---|---|
| `Common` | `common.dfy` |
| `Schema` | `schema.dfy` |
| `Access` | `access.dfy` |
| `Store` | `store.dfy` |
| `Selectors` | `selector.dfy` |
| `TagService` | `tag_service.dfy` |
| `JobsController` | `jobs.dfy` |
| `ResultsController` | `results.dfy` |
| `TagsController` | `tags.dfy` |
| `LegacyStore` | `legacy_store.dfy` |
| `AccountController` | `account.dfy` |
| `AdminController` | `admin.dfy` |
| `ApiController` | `api.dfy` |
| `LegacyTagsController` | `legacy_tags.dfy` (the root `TagsController`) |

**Behaviour of the code worth noting:**

- A run can fail at three points, and none of them stores part of the
  results:
  - the job save (`src/Controllers/JobsController.cs:153`) fails: nothing is
    stored and only `JobFailed` is sent;
  - the fetch or the query fails: the job is kept, no result is stored, and
    `JobFailed` follows `JobStarted`;
  - the results save (`:213`) fails: the job is kept with no results, and
    `JobFailed` follows the `NewResult` messages already sent.
- The `JobFailed` message carries the job id `0`, not the job's id
  (`src/Controllers/JobsController.cs:234`, `:243`).
- Results are added to the job and saved in a single `SaveChangesAsync`, after
  the loop. The model appends them in one step.

## Model

| member | source | states |
|---|---|---|
| Common.Trim | src/Controllers/JobsController.cs:190 | `String.Trim`: a contiguous slice of the input with non-space ends, every character dropped before or after it being .NET white space |
| Common.TrimEmptyIffBlank | src/Controllers/JobsController.cs:190-191 | trimming yields the empty string exactly when the text is null-or-white-space |
| Common.ToLower | src/Controllers/TagsController.cs:75 | case folding keeps the length and maps each character independently |
| Common.NatToStringValue | src/Controllers/JobsController.cs:219 | the decimal rendering of a count reads back as that count |
| Common.Wrap32 | src/Controllers/ResultsController.cs:69 | C# `int` arithmetic: the result is a 32-bit value congruent to the exact value modulo 2^32, and equal to it when it fits |
| Schema.ColorOrDefault | src/Controllers/TagsController.cs:85 | a blank colour becomes the default `#6a11cb`; any other colour is kept |
| Schema.Filter | src/Controllers/TagsController.cs:115 | LINQ `Where` over a table: keeps exactly the rows satisfying the predicate, in order, never more rows than the input |
| Schema.FilterRemovesOne | src/Controllers/ResultsController.cs:231 | removing the only row that fails the predicate leaves the rows before it followed by the rows after it |
| Schema.FilterAscending | Migrations/20250704103605_InitialPostgres.cs:62-67 | filtering a table in ascending key order keeps it in ascending key order |
| Schema.FilterFilter | src/Controllers/ResultsController.cs:62-70 | filtering by a weaker condition and then a stronger one equals filtering by the stronger one |
| Schema.FilterPartition | src/Controllers/ResultsController.cs:231 | a row set splits into the rows that are kept and the rows that are dropped |
| Schema.KeysWellFormedAppend | src/Controllers/JobsController.cs:152-153 | inserting a row keyed with the next identity value keeps the keys ascending and below the counter |
| Schema.KeysWellFormedAppendRun | src/Controllers/JobsController.cs:213 | inserting a run of rows keyed with consecutive identity values keeps the keys ascending and below the counter |
| Schema.Reverse | src/Controllers/JobsController.cs:68 | the reversed table holds position `i` at position `|s|-1-i` |
| Schema.ReverseMembers | src/Controllers/JobsController.cs:68 | reversing a listing keeps exactly its jobs |
| Schema.ReverseDescending | src/Controllers/JobsController.cs:68 | reversing an ascending-key table gives one that is strictly descending by key |
| Schema.TagsWithIds | Controllers/ApiController.cs:96-98 | the tags whose id is listed: exactly the stored tags with a listed id, whose ids are the stored ids meeting the list |
| Schema.FindJob | src/Controllers/JobsController.cs:318 | `FindAsync`: a stored job with that id, or none exactly when no job has it |
| Schema.FindTag | src/Controllers/TagsController.cs:104 | a stored tag with that id, or none exactly when no tag has it |
| Schema.FindResult | src/Controllers/ResultsController.cs:219 | a stored result with that id, or none exactly when no result has it |
| Schema.JobOwner | src/Controllers/JobsController.cs:259-265 | the owner of the job with that id, none exactly when the job is missing |
| Schema.FindJobUnique | src/Controllers/JobsController.cs:263 | with unique keys, looking up a stored job's id returns that very job |
| Schema.RowsOfOneTagCountJobs | src/Controllers/TagsController.cs:49 | join rows that all name one tag are as many as the jobs they name |
| Schema.ReplaceJobTags | src/Controllers/TagsController.cs:148-160 | after the replacement the job carries exactly the new tag set and every other job keeps its tags |
| Schema.ReplaceJobTagsIdempotent | src/Controllers/TagsController.cs:148-160 | replacing a job's tags twice with the same set is the same as once |
| Schema.AddEach | src/Controllers/TagsController.cs:157-160 | the loop adding each fetched tag yields the old set together with all their ids |
| Schema.FilteredTablesWellFormed | Migrations/20250704103605_InitialPostgres.cs:84-134 | removing rows consistently with the foreign keys keeps every key ascending and every reference resolving |
| Schema.DeleteJobWellFormed | Migrations/20250704103605_InitialPostgres.cs:102-134 | deleting a job with its results and join rows (the cascade) keeps the tables well formed |
| Schema.AddJobWellFormed | src/Controllers/JobsController.cs:141-153 | inserting a job with join rows to stored tags keeps the tables well formed |
| Schema.AddResultsWellFormed | src/Controllers/JobsController.cs:193-213 | inserting freshly keyed results of a stored job keeps the tables well formed |
| Schema.DeleteResultWellFormed | src/Controllers/ResultsController.cs:231-232 | deleting one result keeps the tables well formed |
| Schema.DeleteTagWellFormed | Migrations/20250704103605_InitialPostgres.cs:108-113 | deleting a tag with its join rows keeps the tables well formed |
| Schema.AddTagWellFormed | src/Controllers/TagsController.cs:87-88 | inserting a tag keyed with the next identity value keeps the tables well formed |
| Schema.ReplaceJobTagsWellFormed | src/Controllers/TagsController.cs:148-161 | replacing a stored job's tags by stored tags keeps the tables well formed |
| Access.CheckAccess | src/Controllers/JobsController.cs:265-272 | NotFound when the row is missing, then Unauthorized without a current user, then allowed exactly for an admin or the owner, Forbid otherwise |
| Store.CurrentUser | src/Controllers/JobsController.cs:43-47 | `FirstOrDefaultAsync(u => u.Email == claim)`: a user holding that e-mail (null matching null), none exactly when nobody does |
| Store.RequesterId | src/Controllers/JobsController.cs:267-268 | there is a requester exactly when there is a current user |
| Store.Hub.Send | src/Controllers/JobsController.cs:156 | a broadcast appends exactly that message to what was sent |
| Store.AppDb.constructor | src/Data/appDbContext.cs:7-39 | a database with the given users and empty domain tables is well formed |
| Selectors.Classify | src/Controllers/JobsController.cs:165-181 | a class selector exactly when the string starts with `.`, an id selector exactly when it starts with `#`, an element selector (of the whole string) exactly otherwise, the empty string included |
| Selectors.ClassifyRoundTrip | src/Controllers/JobsController.cs:165-181 | the selector kind and its name give back the original string |
| Selectors.ToXPath | src/Controllers/JobsController.cs:165-181 | `.c` becomes the class-token query for `c`, `#i` becomes `//*[@id='i']`, anything else becomes `//` followed by it |
| Selectors.ElementFallbackOverlapsIdQuery | src/Controllers/JobsController.cs:175-180 | the element fallback passes XPath through, so `*[@id='x']` gives the same query as `#x` |
| Selectors.TakeWord | src/Controllers/JobsController.cs:169 | the leading run of non-space characters, non-empty when the text starts with one |
| Selectors.Words | src/Controllers/JobsController.cs:169 | the tokens of a class attribute, each non-empty and free of XML white space |
| Selectors.ClassQuerySelectsToken | src/Controllers/JobsController.cs:169 | `contains(concat(' ', normalize-space(@class), ' '), ' c ')` holds exactly when `c` is one of the attribute's space-separated tokens |
| Selectors.SpacedContains | src/Controllers/JobsController.cs:169 | the space-padded token list contains ` c ` exactly when `c` is a token |
| Selectors.ClassQueryMatchesToken | src/Controllers/JobsController.cs:169 | `.item` selects an element of class `item active` |
| Selectors.ClassQueryRejectsLongerClass | src/Controllers/JobsController.cs:169 | `.item` does not select an element of class `items` |
| TagService.GetAllTags | src/Services/TagService.cs:45-49 | every stored tag, in table order |
| TagService.GetTagsByIds | src/Services/TagService.cs:57-66 | empty for an empty id list, otherwise exactly the stored tags whose id is listed, in table order |
| TagService.SelectedTagIds | src/Services/TagService.cs:63-65 | the ids of the tags returned are the stored ids that are also listed |
| TagService.GetTagsByIdsUsesIdSet | src/Services/TagService.cs:63-65 | order and repetition in the id list do not matter |
| TagService.UnknownIdIgnored | src/Services/TagService.cs:63-65 | an id naming no stored tag changes nothing |
| TagService.GetTagsByIdsNoDuplicates | src/Services/TagService.cs:63-65 | the tags returned are distinct and in ascending key order, even when an id is listed twice |
| JobsController.Scrape | src/Controllers/JobsController.cs:159-247 | the nodes that `SelectNodes` returns for the selector's XPath rendering, none when it returns null. A query exception, or a fetch that threw anything but `HttpRequestException`, fails the run with its message; `HttpRequestException` fails it as a network failure with its message |
| JobsController.Extract | src/Controllers/JobsController.cs:190-191 | a node is skipped exactly when its trimmed text is blank; otherwise the result is its trimmed text with the node's time |
| JobsController.Extracted | src/Controllers/JobsController.cs:187-209 | the kept nodes are never more than the matched nodes |
| JobsController.TrimNodes | src/Controllers/JobsController.cs:190-195 | one result per node |
| JobsController.ExtractedIsFilterThenTrim | src/Controllers/JobsController.cs:187-209 | the kept results are exactly the nodes with non-blank trimmed text, in match order, each carrying its trimmed text |
| JobsController.ExtractedTrimmed | src/Controllers/JobsController.cs:190-195 | every stored text is trimmed and non-empty |
| JobsController.ExtractedAppend | src/Controllers/JobsController.cs:187-209 | extraction over two runs of nodes is their extractions in order |
| JobsController.ExtractedCount | src/Controllers/JobsController.cs:187-209 | one result per matched node whose trimmed text is not blank |
| JobsController.Progress | src/Controllers/JobsController.cs:201-204 | one `NewResult` message per kept node |
| JobsController.ProgressNumbered | src/Controllers/JobsController.cs:201-204 | the k-th `NewResult` carries the job id, the k-th text and the running count k |
| JobsController.Rows | src/Controllers/JobsController.cs:193-200 | the k-th stored result is keyed with the k-th identity value, holds the k-th text and time, and belongs to the job |
| JobsController.RowsKeyed | src/Controllers/JobsController.cs:193-200 | the rows take consecutive keys from the counter and all name the job |
| JobsController.NewRowsStored | src/Controllers/JobsController.cs:193-213 | one row per kept text, or none when the fetch, the query or the results save fails |
| JobsController.RunEventsWellOrdered | src/Controllers/JobsController.cs:156-243 | once the job is saved, the messages go `JobStarted` first, then numbered `NewResult`s, then `JobCompleted` with their count or `JobFailed` for id 0. It ends in `JobFailed` exactly when the fetch, the query or the results save fails. A fetch or query failure sends two messages; otherwise `CountNonBlank + 2` are sent |
| JobsController.RunOutcome | src/Controllers/JobsController.cs:213-247 | created with results exactly when some node was kept and saved, saved without results exactly when none was kept, failed exactly when the fetch, the query or the results save threw, with the general error message for a failed save |
| JobsController.NoMatchSavesWithoutResults | src/Controllers/JobsController.cs:162-227 | when `SelectNodes` returns null the run stores no result, completes with count 0 and reports that nothing was found |
| JobsController.NewJobTagsRefer | src/Controllers/JobsController.cs:142-149 | the new job's join rows name the job and stored tags only |
| JobsController.NewJobTagsAreSelected | src/Controllers/JobsController.cs:142-149 | the new job carries exactly the selected ids that name stored tags |
| JobsController.ExtractResults | src/Controllers/JobsController.cs:184-210 | the loop keeps exactly the extracted nodes and broadcasts exactly their numbered progress messages |
| JobsController.Create | src/Controllers/JobsController.cs:117-249 | a blank URL or selector (bound as null) gives the missing-input message, then Unauthorized, each with no change. A failed job save changes nothing and sends only `JobFailed`. Otherwise the whole new state: job appended, join rows, the run's results appended with fresh keys, the message log and the outcome |
| JobsController.RunJob | src/Controllers/JobsController.cs:213-247 | appends the run's rows with fresh keys, none when the fetch, query or results save fails, and sends the rest of the log; nothing else changes |
| JobsController.FinishRun | src/Controllers/JobsController.cs:212-243 | when rows were kept and the save throws, only `JobFailed` for id 0 and no row; otherwise the rows with fresh keys and `JobCompleted` with their count; nothing else changes |
| JobsController.SaveJob | src/Controllers/JobsController.cs:133-153 | the job and its join rows are appended and the job counter advances, nothing else changes |
| JobsController.SaveResults | src/Controllers/JobsController.cs:200-213 | the rows are appended and the result counter advances by their number, nothing else changes |
| JobsController.Index | src/Controllers/JobsController.cs:54-84 | Unauthorized exactly without a current user. Otherwise the listed jobs are exactly the stored jobs the requester may see: all of them for an admin, their own otherwise |
| JobsController.IndexDescending | src/Controllers/JobsController.cs:68-79 | the listing is strictly newest job first |
| JobsController.Details | src/Controllers/JobsController.cs:257-306 | shown exactly when the gate allows it, and then with the job, its results, its tag ids and all tags. Otherwise denied with the gate's answer |
| JobsController.Delete | src/Controllers/JobsController.cs:316-334 | when the gate allows it, the job goes with its results and join rows and nothing else changes. Otherwise denied with no change |
| JobsController.RemoveJob | src/Controllers/JobsController.cs:329-330 | removing a job deletes exactly its results and join rows and keeps the database well formed |
| ResultsController.EscapeCsvField | src/Controllers/ResultsController.cs:134-145 | null or empty gives the empty string |
| ResultsController.EscapeCsvFieldOnePass | src/Controllers/ResultsController.cs:140-144 | the four chained `Replace` calls equal one pass that doubles quotes and turns each line break or tab into a space |
| ResultsController.EscapeRemovesBreaks | src/Controllers/ResultsController.cs:140-144 | an escaped field holds no newline, carriage return or tab |
| ResultsController.EscapeLength | src/Controllers/ResultsController.cs:140-144 | the escaped field is longer by one per quote and holds twice as many quotes |
| ResultsController.EscapeUnchangedIffPlain | src/Controllers/ResultsController.cs:140-144 | a field is left unchanged exactly when it holds no quote, newline, carriage return or tab |
| ResultsController.EscapeRoundTrip | src/Controllers/ResultsController.cs:140-144 | un-doubling the quotes of an escaped field gives the original with breaks and tabs blanked |
| ResultsController.CsvLineCount | src/Controllers/ResultsController.cs:109-120 | with a one-newline line ending, the file has one line per result plus the header |
| ResultsController.CsvDocumentPrefix | src/Controllers/ResultsController.cs:109-120 | the file for the first k results is a prefix of the whole file |
| ResultsController.ExportCsv | src/Controllers/ResultsController.cs:92-126 | denied with the gate's answer unless allowed. Otherwise a `text/csv` file named after the job, holding the header and one line per result of the job |
| ResultsController.InsertByTime | src/Controllers/ResultsController.cs:68 | the insertion step adds one element |
| ResultsController.SortByTimeDescCorrect | src/Controllers/ResultsController.cs:68 | `OrderByDescending(ScrapedAt)`: newest first and a permutation of the job's results |
| ResultsController.SkipTake | src/Controllers/ResultsController.cs:69-70 | negative offset or count is a database error. Otherwise, the slice from the offset of at most `count` rows, empty past the end |
| ResultsController.PageOffset | src/Controllers/ResultsController.cs:69 | `(page - 1) * pageSize` in 32-bit arithmetic, exact when it fits |
| ResultsController.TotalPages | src/Controllers/ResultsController.cs:78 | defined exactly for a positive page size |
| ResultsController.TotalPagesIsCeiling | src/Controllers/ResultsController.cs:78 | the page count is the ceiling of total over page size |
| ResultsController.Paginate | src/Controllers/ResultsController.cs:62-80 | the query fails exactly for a negative wrapped offset or page size. Otherwise the items are the `Skip`/`Take` slice, never more than the page size, with the job and the total count |
| ResultsController.PageIsSlice | src/Controllers/ResultsController.cs:62-80 | page `p` is the slice starting at `(p-1)*size`. It has a previous page exactly when the offset is positive, and a next page exactly when results lie beyond it |
| ResultsController.OffsetOfPage | src/Controllers/ResultsController.cs:69 | the offset of page p ≥ 1 is non-negative and positive exactly past the first page |
| ResultsController.NextPageIffMore | src/Controllers/ResultsController.cs:79-80 | `page < totalPages` exactly when results lie beyond the page |
| ResultsController.EveryResultOnItsPage | src/Controllers/ResultsController.cs:62-80 | the result at position `q*size + m` is item m of page q+1, and that page exists |
| ResultsController.LargePageWraps | src/Controllers/ResultsController.cs:69 | page 0x40000001 of size 2 wraps to a negative offset, and the query fails |
| ResultsController.Index | src/Controllers/ResultsController.cs:46-83 | denied, with the gate's answer, exactly when the gate does not allow it. Otherwise the job exists and the outcome is the page of its results sorted newest first |
| ResultsController.ResultOwner | src/Controllers/ResultsController.cs:217-228 | there is an owner unless the result or its job is missing |
| ResultsController.Delete | src/Controllers/ResultsController.cs:215-236 | when allowed, exactly that result goes and the redirect names its job. Otherwise denied with no change |
| ResultsController.DeleteRemovesExactlyOne | src/Controllers/ResultsController.cs:231 | with unique keys, exactly one row is removed and the rest keep their order |
| TagsController.Index | src/Controllers/TagsController.cs:43-53 | one entry per stored tag, in order |
| TagsController.IndexCountsJobs | src/Controllers/TagsController.cs:45-51 | each entry counts exactly the jobs carrying that tag |
| TagsController.Decide | src/Controllers/TagsController.cs:65-91 | corrected: accepted exactly for a non-blank name whose trimmed form is not taken (ignoring case). Then the tag gets the next key, the trimmed name and the colour or its default. Otherwise the right error message |
| TagsController.DecideKeepsNamesDistinct | src/Controllers/TagsController.cs:75-86 | an accepted create keeps tag names distinct ignoring case |
| TagsController.DecideAsWritten | src/Controllers/TagsController.cs:65-91 | as written: accepted exactly for a non-blank name whose untrimmed form is not taken (ignoring case), and the trimmed name is stored. Otherwise the right error message |
| TagsController.AsWrittenAdmitsDuplicate | src/Controllers/TagsController.cs:75-84 | as written, `" News"` is accepted beside `news`, which breaks name distinctness; the corrected check rejects it |
| TagsController.PaddedNameTrims | src/Controllers/TagsController.cs:84 | `" News"` is not blank and trims to `News` |
| TagsController.PaddedNameLowers | src/Controllers/TagsController.cs:75 | folding the padded name does not give `news`, while folding the trimmed name does |
| TagsController.Create | src/Controllers/TagsController.cs:65-91 | as written: rejected with `DecideAsWritten`'s message and no change, or its tag appended and the tag counter advanced |
| TagsController.Delete | src/Controllers/TagsController.cs:102-119 | "Tag not found." with no change, or the tag and its join rows go and nothing else changes |
| TagsController.DeleteRemovesExactlyOne | src/Controllers/TagsController.cs:115 | with unique keys, exactly one tag is removed and the rest keep their order |
| TagsController.DeleteUntagsEveryJob | src/Controllers/TagsController.cs:115 | after the cascade no job carries the tag and every job keeps its other tags |
| TagsController.RebuildJobTags | src/Controllers/TagsController.cs:148-161 | the rebuilt set is exactly the selected ids that name stored tags |
| TagsController.UpdateJobTags | src/Controllers/TagsController.cs:131-166 | when allowed, the job carries exactly the selected stored tags and nothing else changes. Otherwise denied with no change |
| TagsController.UpdatedJobCarriesSelected | src/Controllers/TagsController.cs:148-161 | after the update the job carries tag t exactly when t was selected and is stored |
| TagsController.UpdateIdempotent | src/Controllers/TagsController.cs:148-161 | submitting the same selection twice is the same as once |
| TagsController.JobsByTag | src/Controllers/TagsController.cs:174-187 | NotFound exactly for an unknown tag. Otherwise exactly the stored jobs carrying it |
| LegacyStore.ClaimsOf | Controllers/AccountController.cs:33-38 | the cookie carries the user's name, e-mail and role |
| LegacyStore.FindUser | Controllers/AdminController.cs:43 | a stored user with that id, or none exactly when nobody has it |
| LegacyStore.UserKeysUnique | Controllers/AdminController.cs:43-68 | keys are unique and the lookup of a stored user's id returns that user |
| LegacyStore.UserByEmail | Controllers/AdminController.cs:50 | the first user with that e-mail, none exactly when nobody has it |
| LegacyStore.UserByEmailUnique | Controllers/AdminController.cs:50 | with distinct e-mails, the lookup by a user's e-mail returns that user |
| LegacyStore.LegacyDb.constructor | Data/appDbContext.cs:3-36 | a database with the given users and empty domain tables is well formed |
| LegacyStore.AddUserWellFormed | Controllers/AccountController.cs:70-80 | inserting a user keyed with the next identity value keeps the tables well formed |
| LegacyStore.DeleteJobsOfUserWellFormed | Migrations/20250704103605_InitialPostgres.cs:84-89 | removing a user's jobs with their results and join rows keeps the tables well formed |
| LegacyStore.DeleteUserRowWellFormed | Migrations/20250704103605_InitialPostgres.cs:62-67 | removing a user who owns no job keeps the tables well formed |
| AccountController.AfterSignIn | Controllers/AccountController.cs:43-95 | the redirect goes to the return URL exactly when it is not blank (a blank one is bound as null) and local, otherwise to the dashboard |
| AccountController.FindCredentials | Controllers/AccountController.cs:26 | a stored active user with exactly that e-mail and password, none exactly when nobody matches; a blank e-mail or password (bound as null) matches nobody |
| AccountController.FindCredentialsUnique | Controllers/AccountController.cs:26 | with distinct e-mails, the only matching user is the one found |
| AccountController.Login | Controllers/AccountController.cs:24-46 | signed in exactly when the match exists and is not a guest, with its claims and redirect. Otherwise the guest or invalid-credentials message |
| AccountController.LoginSucceedsIff | Controllers/AccountController.cs:26-31 | Login succeeds exactly when some active non-guest user has those credentials, a blank e-mail or password matching none. A guest with them gets the guest message |
| AccountController.Register | Controllers/AccountController.cs:63-96 | a taken e-mail is rejected with no change. A blank user name, e-mail or password (bound as null) fails the save with no change. Otherwise a new active "User" with a profile is appended under the next key and signed in, after which the e-mail is taken |
| AccountController.RegisterKeepsEmailsDistinct | Controllers/AccountController.cs:65-80 | registering keeps e-mail addresses distinct |
| AccountController.LoginAfterRegister | Controllers/AccountController.cs:26-80 | the new account logs in with the same e-mail and password and gets the same claims |
| AdminController.SelfKeyAsWritten | Controllers/AdminController.cs:49-75 | as written, the signed-in admin is looked up by `User.Identity.Name`, the user-name claim |
| AdminController.SelfKey | Controllers/AdminController.cs:49-75 | corrected: the signed-in admin is looked up by the e-mail claim |
| AdminController.AsWrittenMissesSelf | Controllers/AdminController.cs:49-75 | an admin whose user name is not their e-mail is not recognised as written, so they can delete or deactivate themselves; the e-mail claim recognises them |
| AdminController.SignedInUserRecognised | Controllers/AdminController.cs:49-51 | with distinct e-mails, the corrected check always recognises the signed-in user's own id |
| AdminController.UnknownSignedInUserNotProtected | Controllers/AdminController.cs:49-51 | when no user holds the key, the self-protection does not apply |
| AdminController.DeleteUser | Controllers/AdminController.cs:41-60 | NotFound with no change, or, when the user found by `User.Identity.Name` has the id, the self-deletion refusal with no change. Otherwise the user goes with their jobs, results and join rows, tags stay, and the success notice is sent |
| AdminController.RemoveUser | Controllers/AdminController.cs:56-57 | deleting a user removes exactly them, their jobs, and those jobs' results and join rows |
| AdminController.RemoveJobsOf | Migrations/20250704103605_InitialPostgres.cs:84-134 | afterwards no job belongs to the user; their jobs, results and join rows go, nothing else changes |
| AdminController.RemoveUserRow | Controllers/AdminController.cs:56-57 | the user row goes once no job refers to it, nothing else changes |
| AdminController.DeleteRemovesExactlyOne | Controllers/AdminController.cs:56 | with unique keys, exactly one user is removed and the rest keep their order |
| AdminController.DeleteUserRemovesOwnJobs | Migrations/20250704103605_InitialPostgres.cs:84-89 | the cascade removes exactly the user's jobs and leaves none of theirs |
| AdminController.ToggleActive | Controllers/AdminController.cs:80 | the toggled table has the same length |
| AdminController.ToggleTwiceRestores | Controllers/AdminController.cs:80 | toggling the same user twice restores the table |
| AdminController.ToggleChangesOnlyTarget | Controllers/AdminController.cs:80 | keys and every other row and field stay, and only the target's IsActive is inverted |
| AdminController.ToggleMessage | Controllers/AdminController.cs:83 | the notice says "activated" exactly when the user is now active |
| AdminController.IndexOfUser | Controllers/AdminController.cs:68 | the position of the stored user with that id |
| AdminController.ToggleActiveUser | Controllers/AdminController.cs:65-85 | NotFound, or the self-refusal when the user found by `User.Identity.Name` has the id, each with no change. Otherwise only the target's IsActive is inverted, with the matching notice |
| ApiController.JobTagList | Controllers/ApiController.cs:31 | exactly the stored tags the job carries |
| ApiController.GetJobs | Controllers/ApiController.cs:19-36 | one summary per job in table order, with its fields, its number of results and exactly its tags |
| ApiController.GetJobsCons | Controllers/ApiController.cs:21-33 | the summed result counts split into the first job's count plus the rest |
| ApiController.SumIgnoresOtherJob | Controllers/ApiController.cs:31 | results of a job not listed do not change the summed counts |
| ApiController.ResultsCountsCoverResults | Controllers/ApiController.cs:31 | with unique job keys and every result owned by a stored job, the summed counts equal the number of results |
| ApiController.Views | Controllers/ApiController.cs:56 | one view per result with its text and time |
| ApiController.GetJob | Controllers/ApiController.cs:40-59 | NotFound exactly for an unknown id. Otherwise the fields of the job `Find` returns, the text and time of each of its results in order, and exactly its tags |
| ApiController.GetJobAgreesWithGetJobs | Controllers/ApiController.cs:19-59 | the detail of a listed job agrees with its summary |
| ApiController.TagSummaryOf | Controllers/ApiController.cs:66 | the tag's fields and the number of jobs carrying it |
| ApiController.GetTags | Controllers/ApiController.cs:63-70 | one summary per stored tag in order, counting exactly the jobs carrying it |
| ApiController.GetTagsCons | Controllers/ApiController.cs:63-70 | the summed job counts split into the first tag's rows plus the rest |
| ApiController.SumIgnoresOtherTag | Controllers/ApiController.cs:66 | join rows of an unlisted tag do not change the summed counts |
| ApiController.JobsCountsCoverJoinRows | Controllers/ApiController.cs:66 | with unique tag keys and every join row naming a stored tag, the summed counts equal the number of join rows |
| ApiController.GetStats | Controllers/ApiController.cs:113-124 | the row count of each table |
| ApiController.StatsAgreeWithListings | Controllers/ApiController.cs:19-124 | in a well-formed database the stats agree with the listings: as many jobs and tags, and the results and join rows are the summed counts |
| ApiController.CreateTag | Controllers/ApiController.cs:74-83 | BadRequest with no change exactly for an empty name. Otherwise the tag is stored verbatim under the next key and returned |
| ApiController.CreatedTagListed | Controllers/ApiController.cs:66-80 | a newly created tag is listed last with zero jobs |
| ApiController.AssignTags | Controllers/ApiController.cs:87-109 | NotFound with no change for an unknown job. Otherwise the job carries exactly the listed stored tags and nothing else changes |
| ApiController.AssignedJobCarriesListed | Controllers/ApiController.cs:96-106 | after the assignment the job carries tag t exactly when t was listed and is stored |
| ApiController.AssignIdempotent | Controllers/ApiController.cs:96-106 | assigning the same list twice is the same as once, and other jobs keep their tags |
| LegacyTagsController.NewTag | Controllers/TagsController.cs:27-32 | none exactly for a blank name. Otherwise the name verbatim under the next key, with the colour or its default |
| LegacyTagsController.Create | Controllers/TagsController.cs:25-37 | "Tag name is required." with no change, or the new tag appended and the counter advanced |
| LegacyTagsController.SameNameTwice | Controllers/TagsController.cs:27-34 | with no duplicate check, creating the same name twice stores two rows with that name under different keys |
| LegacyTagsController.Delete | Controllers/TagsController.cs:42-54 | "Tag not found." with no change, or the tag and its join rows go and nothing else changes |
| LegacyTagsController.DeleteThenNotFound | Controllers/TagsController.cs:44-51 | after a delete the id is gone, so deleting it again reports "Tag not found." |

## Left out

- The framework's own checks are not modelled: `[Authorize]` and role attributes, anti-forgery tokens, cookie sign-in and sign-out. Actions start after the framework has admitted the request.
  - `Url.IsLocalUrl` is a function parameter.
  - The principal's e-mail claim and Admin role are inputs.
- Logout, and the GET actions that only render a form (Create, Register, Login), have no logic and are not modelled.
- The users listing of the root `AdminController` is a plain `ToList` and is not modelled.
- The root tree's `TagsController.Index` plain listing is not modelled.
- The database's answer to the two `SaveChangesAsync` calls of a scraping run is an input (`SaveResult`): it commits, or it throws with a message. Every other `SaveChangesAsync` is modelled as committing, except the Register insert with a null field; a database outage is not modelled.
  - ApiController.CreateTag: a JSON body with `"color": null` makes the insert break the NOT NULL rule on `Tags.Color`, so the source's save throws. The model takes the colour as a string and stores it, with `""` standing for null.
- Fetching the page and evaluating XPath are inputs. The fetch outcome and the node selection (nodes, null, or a query exception) are parameters.
  - The XPath class-token property is proved over the XPath 1.0 `normalize-space` and `contains` semantics.
  - A `'` inside a selector (an injection into the query string) is passed through unmodelled.
- `Task.Delay(100)` and asynchronous scheduling are not modelled. Timing does not affect the stored state.
- The SignalR transport is not modelled. `Hub.sent` records the messages broadcast, in order.
- The JSON export of `ResultsController` is not modelled. It serialises the same rows as the CSV export and has no escaping rules of its own.
- The UTF-8 encoding of the CSV bytes is not modelled.
- Clocks are parameters: the `"yyyy-MM-dd HH:mm:ss"` timestamp rendering, the environment's line ending and `DateTime.Now`/`UtcNow`.
- The order among results with equal timestamps is not modelled. The sort is stable-by-insertion, while the database leaves ties unspecified.
- ResultsController.TotalPages: with a page size of 0 the floating-point quotient is infinite, or NaN when there are no results. No exception is thrown, and C# leaves the value of the `(int)` cast of such a number unspecified, so the model returns `None`.
- Selectors.Classify: `StartsWith(".")` is culture-sensitive in .NET. It is modelled as an ordinal prefix test.
- Common.ToLower: culture-sensitive case folding is modelled as ASCII folding.
- Navigation collections (`job.Tags`, `job.ScrapingResults`) are taken in table order.
- The `ProfileId` and `UserId` keys of `Profile` are not modelled. The profile is nested in its user.
- ApiController.CreateTag: a request body with an explicit `TagId` is not modelled. The key is always the next identity value.
- Null strings and arrays are modelled as `""` and `[]`; the model binding turns an empty or white-space-only form field into null, so the model tests such fields with `IsBlank`.
  - Where the source compares a null parameter with a non-nullable column (the e-mail and password of Login, the e-mail of Register), the model matches no row.
  - ApiController.AssignTags with a null `tagIds` would throw and is not modelled.
- Queries without `OrderBy` are read in key order: `GetAllTagsAsync` (`src/Services/TagService.cs:48`), `GetTagsByIdsAsync` (`:63-65`), `Tags.ToList` and the API listings. PostgreSQL does not promise any order for them.
- JobsController.Create: a failing `SendAsync` (the hub transport) is not modelled; every broadcast succeeds. A failure of `GetTagsByIdsAsync` is not modelled either.
- JobsController.Create and AccountController.Register: a failed insert leaves the identity counters unchanged. PostgreSQL consumes the sequence values, which only leaves a gap in later keys.
- Seeding (`Data/SeedData.cs`), startup, the other API controllers and concurrency between requests are outside the model.
- The `ViewBag` tag lists re-read on the failure paths of the create actions are not modelled.

## Findings

| source | as written | input that shows it | evidently intended | confidence | as-written member | corrected member |
|---|---|---|---|---|---|---|
| src/Controllers/TagsController.cs:75,84 | the duplicate-name check lowers the untrimmed name, but the stored name is trimmed | stored tag `news`, new name `" News"`: accepted and stored as `News` | compare the trimmed name, so tag names stay distinct ignoring case | not executed | TagsController.DecideAsWritten / TagsController.AsWrittenAdmitsDuplicate | TagsController.Decide / TagsController.DecideKeepsNamesDistinct |
| Controllers/AdminController.cs:49-51,73-75 | the self-protection looks up `User.Identity.Name`, the user-name claim Login issues, among e-mail addresses | admin `User(1, "alice", "alice@example.com", …)` deleting or deactivating id 1: not recognised, so the action goes ahead | look the signed-in user up by the e-mail claim | not executed | AdminController.SelfKeyAsWritten / AdminController.AsWrittenMissesSelf | AdminController.SelfKey / AdminController.SignedInUserRecognised |
