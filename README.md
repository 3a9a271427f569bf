# Taskflow core, modelled in Dafny

Taskflow is a personal dashboard with two parts. The first tracks job applications: each application
records a company, a role, a date and six independent status axes (applied, opening type,
referral, shortlisted, interviews, selected). The second is a task list with priorities, tags and a
completed flag. This project models the logic those views depend on, and proves properties of it:

- **The status engine** (`frontend/src/utils/jobStatus.js`). It has five parts:
  - an ordered decision list that derives one overall status (a label, a badge colour and a priority) from the six axes;
  - the table from labels to filter values;
  - the status filter;
  - the referral filters;
  - the status counts.
- **The company search endpoint** (`backend/controllers/companyController.js`, `searchCompanies`). These steps are modelled:
  - request validation;
  - the normalised cache key;
  - a cache hit;
  - guessing a logo domain from the sanitised name and from the initials of its words;
  - the table of well-known companies that overrides the first guess;
  - de-duplication by domain;
  - truncation.
- **The company card** (`frontend/src/components/CompanyCard.js`):
  - the latest application, taken from a copy sorted newest first;
  - the applied, offer and interviewing counters;
  - the status badge colour.
- **The companies page** (`frontend/src/pages/Companies.jsx`):
  - grouping applications by company;
  - the "not yet applied" reminder with its stored state;
  - the PDF summary line and rows;
  - how a filtered list, its grouping and its counts are derived from the fetched jobs.
- **The job table helpers** (`frontend/src/components/JobTable.js`): the status cell colour and `formatStatus`.
- **The task dialog** (`frontend/src/components/TaskDialog.js`):
  - the form defaults for a new or edited task;
  - title validation;
  - the tag list's serialisation to a comma-separated field and its parse back.
- **The task page** (`frontend/src/pages/Tasks.js`): the completed/active filter and the payload of the completion toggle.

## How the model is organised

Each module follows one source file, plus a few shared modules:
- `Jobs` — the application record;
- `Text` — trimming, splitting, ASCII case;
- `Seqs` — filter and subsequence;
- `Wrappers` — `Option` and `Result`.

The pure parts of the source are functions. Their properties are proved as lemmas. The parts that
work step by step are methods with loop invariants, and they are proved against those functions:
- `getStatusCounts` is `JobStatus.GetStatusCounts`;
- `groupByCompany` is `Companies.GroupByCompany`;
- the card's sort is `CompanyCard.SortByDateInPlace`, an in-place insertion sort on an array copy;
- the PDF summary is `Companies.SummaryOf`.

The page's stored reminder state is the class `Companies.Reminder`.

Some behaviours of the code are modelled as written, and proved:
- `getStatusCounts` starts `all` at the number of jobs. It then adds each job whose label has no filter value (`Awaiting Interview`, `No Interview`) to `all` a second time. So `all` is `|jobs| + |Unmapped(jobs)|`, and the entries sum to `2·|jobs|` (`JobStatus.CountsAll`).
- No job ever gets the label `Shortlisted`. So the `shortlisted` filter is always empty and its count is 0 (`JobStatus.ShortlistedFilterEmpty`).
- A company name with trailing whitespace has an empty last word. It therefore produces an extra one-letter-initials guess, e.g. `"Google "` gives `g.com` (`CompanySearch.TrailingSpaceAddsGuess`).
- A whitespace-only name passes the `!company_name` guard and guesses the domain `.com` (`CompanySearch.BlankNameGuessesDotCom`).
- The PDF export shows an interview round that ended in `not_selected` as `Waiting` (`Companies.PdfRowMergesWaitingAndNotSelected`).

## Model

| member | source | states |
|---|---|---|
| JobStatus.StatusOf | frontend/src/utils/jobStatus.js:4-80 | Each label keeps its name and gets a priority in 0..5. `Got Offer` is the only label with the highest priority, 5, and the only green one. The three setbacks (`Not Selected`, `No Interview`, `Not Shortlisted`) are exactly the red ones and exactly those with priority 1. `Not Yet Applied` is exactly the muted one and, among emitted labels, the only one with priority 0. |
| JobStatus.PriorityFollowsProgress | frontend/src/utils/jobStatus.js:4-80 | Priority grows with progress: not applied, a setback, applied, awaiting interview, interviewing, offer. |
| JobStatus.ColourDistinguishesLabels | frontend/src/utils/jobStatus.js:4-80 | Two emitted labels share a badge colour exactly when they are equal, or both are `Not Selected` / `No Interview`. |
| JobStatus.DeriveLabel | frontend/src/utils/jobStatus.js:2-80 | Each label is derived exactly when its rule is the first that matches (an if-and-only-if per label). `Shortlisted` is never derived. |
| JobStatus.GetJobStatus | frontend/src/utils/jobStatus.js:2-80 | The status carries the derived label and a priority in 0..5. An unapplied job is `Not Yet Applied` with priority 0. |
| JobStatus.RulesUnfold | frontend/src/utils/jobStatus.js:4-73 | The rule table has the source's eight conditions, in the source's order. |
| JobStatus.FirstMatchIsDecisionList | frontend/src/utils/jobStatus.js:2-80 | Running the ordered rule table (first applicable rule, else `Applied`) gives the derived label. |
| JobStatus.GetJobStatusIsFirstMatch | frontend/src/utils/jobStatus.js:2-80 | `getJobStatus` equals the table-driven evaluation, colour and priority included. |
| JobStatus.FallbackIsApplied | frontend/src/utils/jobStatus.js:75-80 | A job that matches no rule is `Applied` with priority 2. |
| JobStatus.EveryLabelReachable | frontend/src/utils/jobStatus.js:2-80 | Every label except `Shortlisted` is the status of some job. |
| JobStatus.FirstMatchWins | frontend/src/utils/jobStatus.js:4-80 | When several rules match, the earlier rule wins. An unapplied job with an offer is `Not Yet Applied`. An applied, not-shortlisted job with an offer is `Got Offer`. A not-shortlisted job in interviews is `Not Shortlisted`. A finished round with no decision is `Not Shortlisted` when not shortlisted and `Applied` while shortlisting is pending. |
| JobStatus.GetFilterValue | frontend/src/utils/jobStatus.js:96-107 | Every label maps to a count key. It maps to `all` exactly for `Awaiting Interview` and `No Interview`. |
| JobStatus.JobStatusesAgree | frontend/src/utils/jobStatus.js:84-107 | For each label with a filter value, `jobStatuses` has an entry with that value and the label's text. |
| JobStatus.FilterTableIsBijective | frontend/src/utils/jobStatus.js:96-107 | No two labels share a filter value other than `all`. Every status filter is some label's value. |
| JobStatus.StatusFilterOf | frontend/src/utils/jobStatus.js:121-124 | A job's filter value is never `shortlisted`. It is `all` exactly for applied, shortlisted jobs whose interviews are waiting or not selected. |
| JobStatus.FilterJobsByStatus | frontend/src/utils/jobStatus.js:110-125 | `all` returns the list unchanged. Any other filter returns an order-preserving subsequence whose every element passes the filter. |
| JobStatus.FilterKeepsExactlyMatches | frontend/src/utils/jobStatus.js:114-124 | A filter keeps every occurrence of a job that passes its test and none of a failing one. The test (`Keeps`) is the referral check for the two referral filters and the job's filter value otherwise. |
| JobStatus.FilterJobsByStatusAppend | frontend/src/utils/jobStatus.js:110-125 | Filtering distributes over concatenation. |
| JobStatus.ReferralFiltersPartition | frontend/src/utils/jobStatus.js:114-119 | `has_referral` keeps exactly the referred jobs and `no_referral` the rest. Together they are a permutation of the input. |
| JobStatus.ShortlistedFilterEmpty | frontend/src/utils/jobStatus.js:100-124 | The `shortlisted` filter returns nothing for any list. |
| JobStatus.Unmapped | frontend/src/utils/jobStatus.js:140-144 | Every job counted a second time in `all` is labelled `Awaiting Interview` or `No Interview`. |
| JobStatus.FilterLengthIsTally | frontend/src/utils/jobStatus.js:121-124 | A status filter's result has as many jobs as have that filter value. |
| JobStatus.TalliesPartition | frontend/src/utils/jobStatus.js:140-144 | Every job has exactly one filter value, so the per-value tallies sum to the number of jobs. |
| JobStatus.TalliedEntries | frontend/src/utils/jobStatus.js:129-146 | After the loop has passed over some jobs, each entry holds their tally for its key, plus the initial total for `all`. |
| JobStatus.CountsMatchFilters | frontend/src/utils/jobStatus.js:128-147 | Each status count equals the length of that status filter's result. The `shortlisted` count is 0. |
| JobStatus.CountsAll | frontend/src/utils/jobStatus.js:128-147 | `all` equals the number of jobs plus the unmapped ones, and all entries sum to twice the number of jobs. |
| JobStatus.GetStatusCounts | frontend/src/utils/jobStatus.js:128-147 | The loop returns exactly the count keys. Each status count is the length of its filter's result, `all` is `|jobs| + |Unmapped|`, `shortlisted` is 0 and the total is `2·|jobs|`. |
| CompanySearch.LookupMissing | backend/controllers/companyController.js:86-87 | A name that is not in the table of well-known companies is not found. |
| CompanySearch.LookupPresent | backend/controllers/companyController.js:44-87 | Looking up a table key returns that key's entry. |
| CompanySearch.Sanitize | backend/controllers/companyController.js:20 | The sanitised name contains only `a-z` and `0-9` and is no longer than the input. |
| CompanySearch.SanitizeKeeps | backend/controllers/companyController.js:20 | Each lower-case letter and digit occurs in the sanitised name as often as in the lower-cased name, and no other character occurs. The result is an order-preserving subsequence, so it is exactly the letters and digits in order. |
| CompanySearch.SanitizeIdempotent | backend/controllers/companyController.js:20 | Sanitising twice is the same as sanitising once. |
| CompanySearch.CacheKey | backend/controllers/companyController.js:12 | The key starts with `company:`. The rest is in lower case with no surrounding whitespace, and is no longer than the name. A name already in that form is its own key after `company:`. Together with `CacheKeyShared`, this fixes the key of every name. |
| CompanySearch.LookupName | backend/controllers/companyController.js:12 | The normalised name is in lower case, has no surrounding whitespace and is no longer than the name. A name already in that form is left as it is. |
| CompanySearch.CacheKeyShared | backend/controllers/companyController.js:12 | Names that differ only in case and in surrounding whitespace share a cache key and a table lookup. |
| CompanySearch.CacheKeyExact | backend/controllers/companyController.js:12 | Two names share a cache key if and only if their normalised names are equal. |
| CompanySearch.Words | backend/controllers/companyController.js:32 | The lowercased name split on whitespace runs gives at least one word. A name without whitespace is one word, its lowercased self. No word holds whitespace. Concatenated, the words give the lowercased name with its whitespace removed. Only the first and last words can be empty. |
| Text.SplitWhitespaceIsSplitOfCollapse | backend/controllers/companyController.js:32 | `split(/\s+/)` equals a reference definition: replace each whitespace run by one space, then split on that space. This fixes every piece of the split. |
| Text.SplitWhitespaceCollapse | backend/controllers/companyController.js:32 | Joining the pieces with single spaces gives the string with each whitespace run collapsed to one space. |
| Text.SplitWhitespacePieces | backend/controllers/companyController.js:32 | No piece of the split holds whitespace. |
| Text.SplitWhitespaceConcat | backend/controllers/companyController.js:32 | Concatenating the pieces gives the string with all its whitespace removed. |
| Text.SplitWhitespaceFirstPiece | backend/controllers/companyController.js:32 | The first piece is empty exactly when the string is empty or starts with whitespace. |
| Text.SplitWhitespaceInnerPieces | backend/controllers/companyController.js:32 | Every piece other than the first and the last is non-empty. |
| Text.SplitAfterWord | backend/controllers/companyController.js:32 | A whitespace-free word, a whitespace run and a rest that does not start with whitespace split into the word followed by the pieces of the rest. |
| CompanySearch.SeveralWordsIffSpace | backend/controllers/companyController.js:32-33 | A name splits into several words if and only if it contains whitespace. |
| CompanySearch.InitialsHaveNoSpace | backend/controllers/companyController.js:34-36 | The initials of words without whitespace contain no whitespace. |
| CompanySearch.Initials | backend/controllers/companyController.js:34 | The abbreviation has one character per non-empty word: the first character of each, in order. An empty word contributes nothing. |
| CompanySearch.Primary | backend/controllers/companyController.js:24-29 | The primary guess keeps the name as name and description. Its domain is letters and digits followed by `.com`, and its logo URL is the logo service's URL for that domain. |
| CompanySearch.Alternative | backend/controllers/companyController.js:32-41 | The abbreviated guess keeps the name. Its domain is `Initials(Words(name))` followed by `.com`, i.e. the first letter of each non-empty word, in order. Its logo URL matches the domain. |
| CompanySearch.TwoWordName | backend/controllers/companyController.js:32-41 | An ordinary two-word name such as `"Goldman Sachs"` splits into its two lowercased words, and its abbreviated guess is their two first letters followed by `.com` (`gs.com`). |
| CompanySearch.FromKnown | backend/controllers/companyController.js:88-94 | A well-known entry gives its own name and domain, and the matching logo URL. |
| CompanySearch.FirstGuessOf | backend/controllers/companyController.js:86-95 | The first guess's logo URL matches its domain. A well-known company's entry replaces the primary guess. |
| CompanySearch.FindDomain | backend/controllers/companyController.js:98-100 | `findIndex` returns the first index with the domain, or -1 when none has it. |
| CompanySearch.DedupByDomain | backend/controllers/companyController.js:98-100 | The de-duplicated list is never longer than its input. What it keeps is stated by `DedupByDomainSpec`. |
| CompanySearch.DedupByDomainSpec | backend/controllers/companyController.js:98-100 | De-duplication keeps exactly the first entry of each domain, in order. The result has distinct domains and drops no domain. |
| CompanySearch.DedupDistinct | backend/controllers/companyController.js:98-100 | A list whose domains are already distinct is left unchanged. |
| CompanySearch.DedupSmall | backend/controllers/companyController.js:98-100 | One entry stays as it is. Two entries stay both unless they share a domain, in which case the first is kept. |
| CompanySearch.SearchCompanies | backend/controllers/companyController.js:5-107 | A missing or empty name gives the 400 response and leaves the cache unchanged. A cache hit returns the cached list. A miss returns a guess list and stores it under the key. |
| CompanySearch.GuessCompanies | backend/controllers/companyController.js:22-102 | The result has one or two entries with distinct domains and matching logo URLs. The first is the well-known entry or the primary guess. The initials guess is second exactly when the name has whitespace and its domain differs from the first. |
| CompanySearch.GuessListShape | backend/controllers/companyController.js:22-102 | The de-duplicated, truncated list built from the first guess and the alternatives has the guess-list shape. |
| CompanySearch.DedupGuesses | backend/controllers/companyController.js:98-102 | De-duplicating a first guess and at most one alternative keeps the first, and keeps the alternative exactly when its domain differs. |
| CompanySearch.BlankNameGuessesDotCom | backend/controllers/companyController.js:7-41 | A whitespace-only name is not a well-known company, and both of its guesses have the domain `.com`. |
| CompanySearch.TrailingSpaceAddsGuess | backend/controllers/companyController.js:32-41 | A one-word name followed by whitespace splits into the word and an empty word. So it gets the guess made of its first letter and `.com`. |
| CompanyCard.DateBeforeIrreflexive | frontend/src/components/CompanyCard.js:24-25 | No date comes before itself. |
| CompanyCard.DateBeforeTransitive | frontend/src/components/CompanyCard.js:24-25 | Date order is transitive. |
| CompanyCard.DateBeforeTotal | frontend/src/components/CompanyCard.js:24-25 | Any two distinct dates are ordered one way or the other. |
| CompanyCard.Insert | frontend/src/components/CompanyCard.js:24-25 | Inserting adds exactly the new job to the multiset. |
| CompanyCard.SortByDate | frontend/src/components/CompanyCard.js:24-25 | Sorting is a permutation of its input. |
| CompanyCard.InsertNewestFirst | frontend/src/components/CompanyCard.js:24-25 | Inserting into a list sorted newest first keeps it sorted. |
| CompanyCard.SortByDateSorts | frontend/src/components/CompanyCard.js:24-25 | The sort orders newest first and is a permutation. |
| CompanyCard.LatestIndex | frontend/src/components/CompanyCard.js:24-25 | No job is later than the chosen one, and every job before it is strictly earlier. This is what a stable descending sort puts first. |
| CompanyCard.SortHead | frontend/src/components/CompanyCard.js:24-25 | The head of the sort is the first of the latest jobs. |
| CompanyCard.SortByDateInPlace | frontend/src/components/CompanyCard.js:24 | Sorting the array in place leaves exactly the sorted sequence of its old contents. |
| CompanyCard.InsertAt | frontend/src/components/CompanyCard.js:24 | One step of the in-place sort inserts element `i` into the sorted prefix before it and leaves the rest as it was. |
| CompanyCard.LatestJob | frontend/src/components/CompanyCard.js:24-25 | The latest application is the earliest-listed job of the latest date. The input list is not reordered, since only a copy is sorted. |
| CompanyCard.CompanyCardOf | frontend/src/components/CompanyCard.js:24-31 | The card shows the latest job, that job's status, the number of applications and the exact applied, offer and interviewing counts, each at most the total. |
| CompanyCard.GotOfferIsCountedEverywhere | frontend/src/components/CompanyCard.js:26-31 | A job whose status is `Got Offer` is counted as applied, as an offer and as interviewing. |
| CompanyCard.BadgeAgreesWithTable | frontend/src/components/CompanyCard.js:11-16 | This lemma carries the contract of `GetStatusBadgeColor`. The badge colour and the table colour split status values into the same classes (an if-and-only-if). |
| CompanyCard.BadgeColours | frontend/src/components/CompanyCard.js:11-16 | `yes`, `done` and `offer` get the green badge. `no` and `rejected` get the red one, and `in_process` gets the amber one. A value gets the muted badge exactly when the table mutes it. |
| JobTable.CellColours | frontend/src/components/JobTable.js:4-9 | This lemma carries the contract of `GetStatusColor`. Each axis shows its positive value green and its negative value red. `in_process` is amber, and waiting, `not_available` and `not_selected` are muted. |
| JobTable.ReplaceFirst | frontend/src/components/JobTable.js:11-13 | Only the first occurrence of the character is replaced, and the length is kept. |
| JobTable.UpperWordStarts | frontend/src/components/JobTable.js:11-13 | Exactly the characters that start a word are upper-cased. Everything else is kept. |
| JobTable.FormatStatus | frontend/src/components/JobTable.js:11-13 | Formatting keeps the length. What it changes is stated by `FormatOnlyRecases`, `FormatOneWord` and `FormatTwoWords`. |
| JobTable.FormatOnlyRecases | frontend/src/components/JobTable.js:11-13 | Apart from letter case, formatting only replaces the first underscore with a space. |
| JobTable.FormatStatusInjective | frontend/src/components/JobTable.js:11-13 | Distinct lower-case values without spaces are formatted differently. |
| JobTable.FormatOneWord | frontend/src/components/JobTable.js:11-13 | A one-word value is shown capitalised, e.g. `waiting` becomes `Waiting`. |
| JobTable.FormatTwoWords | frontend/src/components/JobTable.js:11-13 | A two-word value is shown as two capitalised words, e.g. `not_available` becomes `Not Available`. |
| JobTable.WireLabelsDistinct | frontend/src/components/JobTable.js:11-13 | On every axis, distinct values get distinct labels. |
| Companies.OrderListsKeys | frontend/src/pages/Companies.jsx:94-103 | This lemma carries the contract of `CompanyOrder`. The company order lists each key of the grouping exactly once. |
| Companies.Grouped | frontend/src/pages/Companies.jsx:94-103 | Every company's list in the grouping is non-empty. |
| Companies.GroupedKeys | frontend/src/pages/Companies.jsx:94-103 | The grouping has a key exactly for each company that has an application. |
| Companies.GroupedBuckets | frontend/src/pages/Companies.jsx:94-103 | Each company's list holds its applications in input order. |
| Companies.NoBucket | frontend/src/pages/Companies.jsx:94-103 | A company without applications has an empty bucket. |
| Companies.GroupedSizes | frontend/src/pages/Companies.jsx:94-103 | The list sizes add up to the number of jobs. |
| Companies.GroupByCompany | frontend/src/pages/Companies.jsx:94-103 | The loop returns the grouping with keys exactly the companies present, each list non-empty and in input order, a distinct company order and sizes summing to the number of jobs. |
| Companies.NotAppliedIsStatusCount | frontend/src/pages/Companies.jsx:45-52 | The reminder's counter equals the `not_applied` status count. |
| Companies.AppliedOrNot | frontend/src/pages/Companies.jsx:45-52 | Applied and not-applied jobs sum to the total. |
| Companies.Reminder.constructor | frontend/src/pages/Companies.jsx:27-31 | The reminder starts from the stored dismissed flag and the stored count. |
| Companies.Reminder.OnJobsLoaded | frontend/src/pages/Companies.jsx:45-52 | The reminder is un-dismissed exactly when a stored count exists and is smaller than the new one. The new count is stored. |
| Companies.Reminder.Dismiss | frontend/src/pages/Companies.jsx:61-64 | Dismissing sets the flag and keeps the stored count. The reminder (`Shown`, line 300) is then hidden whatever the counts and the filter. |
| Companies.SummaryOf | frontend/src/pages/Companies.jsx:119-122 | The summary gives the number of companies, applications and applied ones. Neither count exceeds the applications, and there are no companies exactly when the list is empty. |
| Companies.KeysCounted | frontend/src/pages/Companies.jsx:119-122 | The number of companies is the number of grouping keys. |
| Companies.FewerCompaniesThanJobs | frontend/src/pages/Companies.jsx:119-122 | There are never more companies than applications. |
| Companies.PdfRow | frontend/src/pages/Companies.jsx:127-137 | A row has one cell per header. |
| Companies.PdfRows | frontend/src/pages/Companies.jsx:127-137 | There is one row per job, in order. |
| Companies.PdfRowDetermines | frontend/src/pages/Companies.jsx:127-137 | Equal rows mean equal company, role, date and axes. The one exception is interviews, where `waiting` and `not_selected` look the same. |
| Companies.PdfRowMergesWaitingAndNotSelected | frontend/src/pages/Companies.jsx:127-137 | An interview round that ended in `not_selected` is exported as `Waiting`. |
| Companies.PageView | frontend/src/pages/Companies.jsx:192-194 | The page shows the filtered jobs grouped by company. Each group holds only that company's passing jobs. The counts are over all jobs, and the selected status filter's count equals the number of grouped jobs. |
| Tasks.FilterTasks | frontend/src/pages/Tasks.js:77-81 | The result is an order-preserving subsequence. Under `completed` every task in it is completed, and under `active` none is. |
| Tasks.FilterTasksKeeps | frontend/src/pages/Tasks.js:77-81 | A task is kept if and only if it is in the list and passes the selected filter. |
| Tasks.OtherFilterKeepsAll | frontend/src/pages/Tasks.js:77-81 | Any other filter value keeps the whole list. |
| Tasks.CompletedAndActivePartition | frontend/src/pages/Tasks.js:77-81 | The completed and active views are disjoint, their lengths sum to the list's, and together they are a permutation of it. |
| Tasks.TogglePayload | frontend/src/pages/Tasks.js:66 | The toggle sends the negation of the current flag. |
| Tasks.ApplyToggle | frontend/src/pages/Tasks.js:60-75 | The task the page refetches after the toggle has the sent flag and is otherwise unchanged. This is an assumption about the server, listed under "Left out". |
| Tasks.ToggleSwitchesView | frontend/src/pages/Tasks.js:60-81 | A toggle moves a task between the completed view and the active view, and toggling twice restores it. |
| TaskDialog.ParseTags | frontend/src/components/TaskDialog.js:54 | Every parsed tag is non-empty, trimmed and free of commas. |
| TaskDialog.ParseJoinTags | frontend/src/components/TaskDialog.js:29-54 | This lemma carries the contract of `JoinTags`. Parsing the field serialised with `, ` gives back any list of non-empty, trimmed, comma-free tags. |
| TaskDialog.ParseTagsIdempotent | frontend/src/components/TaskDialog.js:29-54 | Serialising and re-parsing a parsed list changes nothing. |
| TaskDialog.NewForm | frontend/src/components/TaskDialog.js:14-20 | A new form has empty text fields, `medium` priority and today's date. |
| TaskDialog.FormFor | frontend/src/components/TaskDialog.js:23-41 | Without a task the form is the new form. With a task it holds the task's fields, its missing description as empty and its tags joined by `, `. |
| TaskDialog.Submit | frontend/src/components/TaskDialog.js:45-55 | Submission fails with `Title is required` if and only if the title is all whitespace. Otherwise the payload is the form with the tags parsed. |
| TaskDialog.NewFormNeedsTitle | frontend/src/components/TaskDialog.js:14-48 | A new, untouched form cannot be submitted. |
| TaskDialog.SaveUnchangedEdit | frontend/src/components/TaskDialog.js:23-55 | Saving an unchanged edit of a task with a non-blank title and well-formed tags sends back its own fields and tags. |

## Left out

- Authentication, HTTP framing and the route handlers. These are the callers of the modelled functions and carry no logic of their own.
- Redis reads and writes: the cache is a map passed to `CompanySearch.SearchCompanies` and returned by it. The one-hour expiry and an unavailable cache are left out.
- The error path at `backend/controllers/companyController.js:109-118` is left out. For a string name, nothing in the modelled code throws: `getCache` and `setCache` catch every cache error themselves and answer `null` or `false`, and an unavailable cache is a miss. For a truthy `company_name` that is not a string, the `toLowerCase` call throws, and the catch block throws again on the same call at line 111, so no fallback response is sent.
- A `company_name` that is not a string is left out: the model takes a string or nothing.
- `CompanySearch.GuessCompanies` takes the result of the table lookup as a parameter. `CompanySearch.SearchCompanies` performs the lookup with `KnownCompany`.
- The table of well-known companies is an ordered list with first-match lookup, not a JavaScript object.
- Keys inherited from `Object.prototype` are left out. A name such as `constructor` would match an inherited member in the JavaScript lookups: `knownCompanies[...]`, the filter mapping, and `grouped[job.company]` in `groupByCompany`.
- JavaScript object key order is left out. The model keeps the grouping as a map plus the company order of first appearance. JavaScript would list integer-like company names first.
- Strings are sequences of Unicode scalar values, not of UTF-16 code units. For a word starting with a character outside the Basic Multilingual Plane (an emoji, say), JavaScript's `w[0]` at `backend/controllers/companyController.js:34` takes half of a surrogate pair. The model takes the whole character.
- Case mapping and whitespace cover ASCII and the common whitespace characters only. `toLowerCase`, `toUpperCase` and `trim` beyond those are not modelled.
- Field values outside the enumerations (for example a misspelt status sent by a client) are left out. Each status axis and each task priority is a closed datatype.
- Dates are ISO `yyyy-MM-dd` strings compared character by character. That order is chronological for well-formed dates. Invalid dates (`NaN` in `new Date(...)`) are not modelled.
- `CompanyCard.SortByDateInPlace` is a stable insertion sort, not the engine's built-in sort (TimSort). Both are stable sorts by the same key, so both produce the same order.
- The clock is a parameter: `today` in `TaskDialog.NewForm` and `TaskDialog.FormFor`. Formatting with `date-fns` is not modelled.
- The task page's grouping of tasks by date (`frontend/src/pages/Tasks.js:83` onwards) is left out. It is display formatting built on date-fns.
- Tasks.ApplyToggle: the task stored after the completion toggle is assumed to be the old task with only `completed` replaced. The server's update handler, which `backend/routes/tasks.js:13` routes the PUT to, is not part of this model, and `Tasks.ToggleSwitchesView` rests on the same assumption.
- `localStorage` is left out: `Companies.Reminder` holds the stored values as typed fields. Parsing a non-numeric stored count and storing values as strings are not modelled.
- PDF rendering, fonts, page layout and the file name are left out. Only the summary numbers and the row cells are modelled.
- React state, effects, fetch calls, toasts and rendering are left out. The derivations they feed are modelled as functions and methods.
- `CompanyCard.GetStatusBadgeColor` is modelled and compared with the table colour, but nothing else in the model uses it. The card itself shows the colour of the derived status (`frontend/src/components/CompanyCard.js:31`), and the badge helper is not called there.
- `CompanyCard.CompanyCardOf` requires a non-empty list. The page only builds cards for the companies of its grouping, and every grouped list is non-empty (`Companies.GroupByCompany`).
- `CompanyCard.LatestJob` copies the list into a fresh array and sorts it there. Aliasing of the caller's array is not modelled because the caller's list is an immutable sequence.
