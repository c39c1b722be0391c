# Job-search tracker services: template engine and application aggregation

This project models the two service modules of a job-search tracker that have
logic of their own, not just field-by-field copying of remote-store records:

- **Cover-letter templates** (`coverLetterTemplateService.js`).
  - `extractVariables` scans `content + " " + subject` with `/\{([^}]+)\}/g` and returns the distinct names.
  - `populateTemplate` replaces `{key}` by each bound value, in binding order, in both subject and content.
  - The `variables` field is recomputed on every create and update, stored as `names.join(',')` and read back with `split(',')`.
  - `getCategories` sorts and de-duplicates the categories of all templates.
  - The create, update and delete paths build their records with defaults and decide the outcome from the answer of the store.
- **Job applications** (`jobApplicationService.js`).
  - The read mapping applies defaults: status `'applied'`, currency `'USD'`, `''` for text, and `null` for a missing or zero salary bound.
  - The write mapping of create and update applies defaults: `Name` is the title or `'Untitled Application'`, plus the status, currency and salary defaults.
  - The create, update and delete outcome rules select from the per-record `results` of the store.
  - `getByStatus` is a filter over the fetched list. `getStatusCounts` is a counting `reduce` into a map.

Modules:

- `Wrappers`: `Option` and `Result`.
- `Strings`: JavaScript string semantics the services rely on.
  - `x || d` on strings.
  - `split` and `join` with a non-empty separator.
  - A global literal replace.
  - The UTF-16 code-unit order that `Array.prototype.sort()` uses.
- `Unique`: `[...new Set(xs)]`, which keeps each element at its first occurrence.
- `Sorting`: default `sort()` on strings.
- `Remote`: the response shapes of the record store, and the two outcome rules both services share, "first successful result" and "any success".
- `CoverLetterTemplates` and `JobApplications`: the two services.

`populateTemplate` and `getStatusCounts` update local state step by step. They are methods with loops, proved equal to reference functions (`Populate`, `StatusCounts`), and the lemmas state what those functions do. Everything else is a function.

Edge cases of the scan and of the stored form, as the code behaves:

- `{}` yields no name, because the regex needs at least one character between the braces (`ExampleEmptyBraces`).
- A placeholder can straddle content and subject, because they are joined with `" "`. For example, content `"{a"` with subject `"b}"` yields the name `"a b"` (`ExampleStraddle`).
- A name containing `,` does not survive the stored round trip. `{a,b}` reads back as `["a", "b"]` (`ExampleCommaSplits`).

## Model

| member | source | states |
|---|---|---|
| CoverLetterTemplates.IndexOf | src/services/api/coverLetterTemplateService.js:378 | the position of the first occurrence of a character, or the length when there is none; no earlier position holds it |
| CoverLetterTemplates.CloseAt | src/services/api/coverLetterTemplateService.js:378 | the first `}` after the front, or the end of the text; no `}` lies between |
| CoverLetterTemplates.MatchesAtFrontIffRun | src/services/api/coverLetterTemplateService.js:378 | a match attempt at the front succeeds exactly when the text from the front to the first `}` is a run: `{`, one or more non-`}` characters, `}` |
| CoverLetterTemplates.Placeholder | src/services/api/coverLetterTemplateService.js:388 | the text `{key}`, two characters longer than the key |
| CoverLetterTemplates.Step | src/services/api/coverLetterTemplateService.js:378 | each step of the global scan advances by at least one character and stays within the text |
| CoverLetterTemplates.FrontName | src/services/api/coverLetterTemplateService.js:379 | the name of a match, its braces stripped, is non-empty and free of `}` |
| CoverLetterTemplates.Matches | src/services/api/coverLetterTemplateService.js:378-379 | every name the `/\{([^}]+)\}/g` scan yields is non-empty and free of `}` |
| CoverLetterTemplates.MatchesOccur | src/services/api/coverLetterTemplateService.js:378-379 | for every matched name, `"{" + name + "}"` occurs in the scanned text |
| CoverLetterTemplates.MatchPosition | src/services/api/coverLetterTemplateService.js:378-379 | returns a position in the text where the k-th match's `{name}` occurs |
| CoverLetterTemplates.NoMatchesIffNoRun | src/services/api/coverLetterTemplateService.js:378 | the scan yields nothing exactly when the text has no `{`, one or more non-`}` characters, `}` run |
| CoverLetterTemplates.OccurrenceIsRun | src/services/api/coverLetterTemplateService.js:378 | an occurrence of `{name}` with a non-empty, `}`-free name is a run the pattern can match |
| CoverLetterTemplates.PlaceholderFront | src/services/api/coverLetterTemplateService.js:378-379 | a `{name}` at the front is the match there, it yields `name`, and the scan moves past its `}` |
| CoverLetterTemplates.MatchesComplete | src/services/api/coverLetterTemplateService.js:378 | a `{name}` occurrence that is not inside an earlier unclosed `{` is matched |
| CoverLetterTemplates.MatchesAppend | src/services/api/coverLetterTemplateService.js:377-378 | when the first part closes every `{` it opens, the scan of a concatenation is the scan of the first part followed by the scan of the second |
| CoverLetterTemplates.MatchesPrefix | src/services/api/coverLetterTemplateService.js:378 | the scan of a prefix is a prefix of the scan of the whole text: appending text never removes or changes an earlier match |
| CoverLetterTemplates.WithoutBracesNothing | src/services/api/coverLetterTemplateService.js:378 | text lacking `{` or lacking `}` yields no name |
| CoverLetterTemplates.SkipsPrefixWithoutOpen | src/services/api/coverLetterTemplateService.js:378 | a prefix without `{` contributes no name and does not shift later matches |
| CoverLetterTemplates.PlaceholderAtFront | src/services/api/coverLetterTemplateService.js:378-379 | a leading `{name}` is matched as `name`, and the scan resumes after it |
| CoverLetterTemplates.ExtractVariables | src/services/api/coverLetterTemplateService.js:376-381 | the result has no duplicates, and every name is non-empty and free of `}` |
| CoverLetterTemplates.ExtractedNamesOccur | src/services/api/coverLetterTemplateService.js:377-379 | `"{" + name + "}"` occurs in `content + " " + subject` for every returned name |
| CoverLetterTemplates.ExtractedNamesInFirstMatchOrder | src/services/api/coverLetterTemplateService.js:380 | names come out in the order of their first match |
| CoverLetterTemplates.ContentNamesFirst | src/services/api/coverLetterTemplateService.js:377-380 | when the content closes every brace it opens, content and subject are scanned separately: the result is the distinct names of the content's matches followed by the subject's |
| CoverLetterTemplates.ContentScannedFirst | src/services/api/coverLetterTemplateService.js:377-380 | for any content, unclosed braces included, the distinct names of the content alone open the result |
| CoverLetterTemplates.ExtractedNamesComplete | src/services/api/coverLetterTemplateService.js:377-380 | every `{name}` in the scanned text that is not inside an earlier unclosed `{` is returned |
| CoverLetterTemplates.ExtractedNothingIffNoRun | src/services/api/coverLetterTemplateService.js:377-378 | the result is empty exactly when the joined text has no placeholder run |
| CoverLetterTemplates.TwoPlaceholders | src/services/api/coverLetterTemplateService.js:378-379 | two placeholders in brace-free surrounding text are matched as their two names, in order |
| CoverLetterTemplates.TwoNamesExtracted | src/services/api/coverLetterTemplateService.js:376-381 | content with two different placeholders in brace-free text, and no subject, yields exactly those two names, in order |
| CoverLetterTemplates.ExampleTwoNames | src/services/api/coverLetterTemplateService.js:376-381 | `"Hello {name}, welcome to {company}"` yields `["name", "company"]` |
| CoverLetterTemplates.RepeatsMatched | src/services/api/coverLetterTemplateService.js:378-379 | the scan lists a placeholder repeated back to back once per occurrence |
| CoverLetterTemplates.RepeatsDropped | src/services/api/coverLetterTemplateService.js:380 | `Set` turns `[a, a, b]` into `[a, b]` |
| CoverLetterTemplates.ExampleRepeatsCollapse | src/services/api/coverLetterTemplateService.js:376-381 | `"{a}{a}{b}"` yields `["a", "b"]` |
| CoverLetterTemplates.ExampleNestedBraces | src/services/api/coverLetterTemplateService.js:378 | `{{x}}` yields `["{x"]` |
| CoverLetterTemplates.ExampleEmptyBraces | src/services/api/coverLetterTemplateService.js:378 | `{}` yields nothing |
| CoverLetterTemplates.ExampleUnclosed | src/services/api/coverLetterTemplateService.js:378 | an unterminated `{x` yields nothing |
| CoverLetterTemplates.ExampleStraddle | src/services/api/coverLetterTemplateService.js:377-378 | content `"{a"` and subject `"b}"` yield `["a b"]` |
| CoverLetterTemplates.Replacement | src/services/api/coverLetterTemplateService.js:389-390 | `value or {key}`: a non-empty value is used, an empty or missing one puts the placeholder back |
| CoverLetterTemplates.Substitute | src/services/api/coverLetterTemplateService.js:388-390 | one replace of the loop body is the text split on `{key}` and joined with `value` or, for an empty or missing value, with `{key}` |
| CoverLetterTemplates.Populate | src/services/api/coverLetterTemplateService.js:387-391 | the reference fold of the loop: bindings applied in entry order; values as long as their placeholders keep the lengths of subject and content |
| CoverLetterTemplates.PopulateTemplate | src/services/api/coverLetterTemplateService.js:383-397 | the loop over the bindings gives the bindings applied in order, each to the output of the previous ones |
| CoverLetterTemplates.UnboundLeavesText | src/services/api/coverLetterTemplateService.js:389-390 | an empty or missing value leaves the text unchanged, because `{key}` is replaced by itself |
| CoverLetterTemplates.BoundReplacesEveryOccurrence | src/services/api/coverLetterTemplateService.js:388-390 | with a non-empty value, the result is the text's pieces between occurrences of `{key}` joined with the value; those pieces rebuild the original text and contain no `{key}` |
| CoverLetterTemplates.PopulateWithoutValues | src/services/api/coverLetterTemplateService.js:387-391 | bindings with only empty or missing values leave subject and content unchanged |
| CoverLetterTemplates.PopulateWithoutPlaceholders | src/services/api/coverLetterTemplateService.js:387-391 | when the `{key}` of no binding occurs in the original subject or content, subject and content come back unchanged |
| CoverLetterTemplates.PlaceholderIsRun | src/services/api/coverLetterTemplateService.js:388-389 | text containing the `{key}` of a literal key contains a placeholder run |
| CoverLetterTemplates.PopulateResolved | src/services/api/coverLetterTemplateService.js:387-391 | text in which `extractVariables` finds nothing is returned unchanged by every safe binding sequence |
| CoverLetterTemplates.ExampleEmptyValueKeepsPlaceholder | src/services/api/coverLetterTemplateService.js:389-390 | binding `x` to `''` leaves `{x}` in place in subject and content |
| CoverLetterTemplates.StoreVariables | src/services/api/coverLetterTemplateService.js:163 | the empty list is stored as `''`; a list with a non-empty first name is stored as a non-empty string |
| CoverLetterTemplates.LoadVariables | src/services/api/coverLetterTemplateService.js:60 | a missing or empty stored value reads as `[]`, and anything else as at least one name |
| CoverLetterTemplates.VariablesRoundTrip | src/services/api/coverLetterTemplateService.js:163 | storing non-empty, comma-free names and reading them back gives the same list (including `[]`) |
| CoverLetterTemplates.ExtractedVariablesRoundTrip | src/services/api/coverLetterTemplateService.js:155-163 | extracted names without `,` survive the store-and-read round trip |
| CoverLetterTemplates.CommaNameSplits | src/services/api/coverLetterTemplateService.js:60 | a stored name `x,y` is read back as the two names `x` and `y` |
| CoverLetterTemplates.ExampleCommaSplits | src/services/api/coverLetterTemplateService.js:163 | `{a,b}` is stored as `a,b` and reads back as two names |
| CoverLetterTemplates.ToRecord | src/services/api/coverLetterTemplateService.js:155-165 | a missing or empty name is sent as `'Untitled Template'` and a missing or empty category as `'General'`, non-empty ones are kept; missing subject and content are sent as `''`; `variables` is the stored form of the names extracted from the content and subject sent |
| CoverLetterTemplates.FromStored | src/services/api/coverLetterTemplateService.js:54-63 | id and timestamps are carried over; name, category, subject and content read as `''` when missing or empty and are kept otherwise; the variables are empty exactly when the stored string is missing or empty, and otherwise are its `split(',')` |
| CoverLetterTemplates.WrittenTemplateReadsBack | src/services/api/coverLetterTemplateService.js:213-224 | a template written by create or update and read back keeps its content and subject, has a non-empty name and category, and, when no extracted name holds `,`, its variables are the names extracted from what is read |
| CoverLetterTemplates.GetAll | src/services/api/coverLetterTemplateService.js:46-63 | a failed fetch gives `[]`; otherwise each record is mapped, in order |
| CoverLetterTemplates.GetById | src/services/api/coverLetterTemplateService.js:83-105 | `null` exactly when the call failed or returned no record; otherwise the mapped record |
| CoverLetterTemplates.FirstTemplate | src/services/api/coverLetterTemplateService.js:175-205 | success exactly when the call succeeded and some result succeeded, giving the mapping of the first success; otherwise the given error |
| CoverLetterTemplates.CreateOutcome | src/services/api/coverLetterTemplateService.js:169-205 | an error is always `'Failed to create template'`, and missing results are an error |
| CoverLetterTemplates.UpdateOutcome | src/services/api/coverLetterTemplateService.js:228-264 | an error is always `'Failed to update template'`, and missing results are an error |
| CoverLetterTemplates.DeleteOutcome | src/services/api/coverLetterTemplateService.js:278-299 | throws exactly when the call failed; true exactly when results are present and some succeeded; false when results are missing |
| CoverLetterTemplates.Categories | src/services/api/coverLetterTemplateService.js:372 | `templates.map(t => t.category)`: one category per template, in order |
| CoverLetterTemplates.SortDistinct | src/services/api/coverLetterTemplateService.js:372-373 | sorting the distinct elements gives a strictly sorted list without repeats holding exactly the input's elements |
| CoverLetterTemplates.GetCategories | src/services/api/coverLetterTemplateService.js:368-374 | the result is strictly sorted, has no duplicates, and holds exactly the categories of the templates |
| Strings.OrDefault | src/services/api/coverLetterTemplateService.js:56-59 | the logical-or default `x or d`: a missing or empty string gives `d`, and any other string is kept |
| Strings.Split | src/services/api/coverLetterTemplateService.js:60 | `split(sep)` gives at least one piece, the first a prefix of the input |
| Strings.Join | src/services/api/coverLetterTemplateService.js:163 | `join(sep)` of a non-empty list starts with its first element |
| Strings.ReplaceAll | src/services/api/coverLetterTemplateService.js:389 | a global literal replace; a replacement as long as the pattern keeps the length of the text |
| Strings.JoinSplit | src/services/api/coverLetterTemplateService.js:389 | joining the pieces of a split with the same separator gives the input back |
| Strings.ReplaceAllIsSplitJoin | src/services/api/coverLetterTemplateService.js:389 | a global literal replace equals splitting on the pattern and joining with the replacement |
| Strings.SplitPiecesAvoidSeparator | src/services/api/coverLetterTemplateService.js:60 | no piece of a split contains the separator |
| Strings.SplitJoin | src/services/api/coverLetterTemplateService.js:60 | splitting the `join` of a non-empty list of parts, on a one-character separator that none of them contains, gives the parts back |
| Strings.SplitWithoutSeparator | src/services/api/coverLetterTemplateService.js:60 | a string without the separator splits into itself alone |
| Strings.SplitAtFirstSeparator | src/services/api/coverLetterTemplateService.js:60 | a split cuts at the first separator and continues after it |
| Strings.ReplaceByItself | src/services/api/coverLetterTemplateService.js:389 | replacing a pattern by itself changes nothing |
| Strings.ReplaceAbsent | src/services/api/coverLetterTemplateService.js:389 | replacing a pattern that does not occur changes nothing |
| Strings.ReplaceSkipsPrefix | src/services/api/coverLetterTemplateService.js:389 | a prefix that cannot start the pattern is kept as it is |
| Strings.ReplaceAtFront | src/services/api/coverLetterTemplateService.js:389 | a leading occurrence is replaced, and the replace continues after it |
| Strings.Below | src/services/api/coverLetterTemplateService.js:373 | the strict order of the default `sort()`: lexicographic on characters, and a proper prefix sorts before any longer string it begins |
| Strings.BelowIrreflexive | src/services/api/coverLetterTemplateService.js:373 | no string sorts strictly before itself |
| Strings.BelowTransitive | src/services/api/coverLetterTemplateService.js:373 | the sort order is transitive |
| Strings.BelowTotal | src/services/api/coverLetterTemplateService.js:373 | any two different strings are ordered one way or the other |
| Unique.Distinct | src/services/api/coverLetterTemplateService.js:380 | the result has no duplicates and holds exactly the elements of the input |
| Unique.FirstIndex | src/services/api/coverLetterTemplateService.js:380 | the position of the first occurrence of an element |
| Unique.FirstIndexInPrefix | src/services/api/coverLetterTemplateService.js:380 | appending does not move a first occurrence |
| Unique.DistinctKeepsFirstOccurrenceOrder | src/services/api/coverLetterTemplateService.js:380 | `Set` lists its elements in the order of their first occurrence |
| Unique.DistinctOfPrefix | src/services/api/coverLetterTemplateService.js:380 | `Set` keeps a prefix's distinct elements as a prefix of the whole's |
| Unique.DistinctAppendPrefix | src/services/api/coverLetterTemplateService.js:380 | the distinct elements of a prefix are a prefix of the distinct elements of the whole |
| Sorting.Insert | src/services/api/coverLetterTemplateService.js:373 | inserting into a sorted list keeps it sorted and adds exactly that element; strictly sorted stays strict for a new element |
| Sorting.SortedTail | src/services/api/coverLetterTemplateService.js:373 | the tail of a sorted list is sorted, strictly when the whole is |
| Sorting.InsertBehindHead | src/services/api/coverLetterTemplateService.js:373 | inserting behind a head that is not above the new element keeps the list sorted and adds exactly that element |
| Sorting.Sort | src/services/api/coverLetterTemplateService.js:373 | `sort()` gives a sorted permutation, strictly sorted when the input has no duplicates |
| Remote.Successes | src/services/api/jobApplicationService.js:161 | `results.filter(r => r.success)`: no more entries than the results, each the data of a successful result |
| Remote.SuccessesHead | src/services/api/jobApplicationService.js:175-176 | the filter is non-empty exactly when some result succeeded, and its head is the data of the first success |
| Remote.FirstSuccess | src/services/api/jobApplicationService.js:154-197 | success exactly when the call succeeded and some result succeeded, giving the first successful record; otherwise the given error |
| Remote.AnySuccess | src/services/api/jobApplicationService.js:281-302 | error exactly when the call failed; true exactly when results are present and some succeeded; false when results are missing |
| JobApplications.AmountOrNull | src/services/api/jobApplicationService.js:64-65 | the logical-or default on a salary bound: a missing bound and 0 both give `null`, and any other number is kept |
| JobApplications.FromStored | src/services/api/jobApplicationService.js:57-73 | an empty or missing status reads as `'applied'`, an empty or missing currency as `'USD'`, empty or missing text as `''`; each salary bound is `null` when missing or 0 and kept otherwise; non-empty values are kept; id and timestamps are carried over |
| JobApplications.ToRecord | src/services/api/jobApplicationService.js:136-150 | `Name` is the title or `'Untitled Application'`; status defaults to `'applied'`, text to `''` and the applied date to the given default; a missing salary block counts as an empty one; the currency defaults to `'USD'` and each bound is `null` when missing or 0, whether or not the block is present; non-empty inputs are kept |
| JobApplications.ForCreate | src/services/api/jobApplicationService.js:136-150 | a create record has no id; a missing applied date becomes the caller's `today`, and a given one is kept |
| JobApplications.ForUpdate | src/services/api/jobApplicationService.js:205-220 | an update record carries the parsed id; a missing applied date is sent as `''` |
| JobApplications.UpdateRoundTripIsStable | src/services/api/jobApplicationService.js:57-73 | reading an application, sending it back unchanged through update and reading it again gives the same fields |
| JobApplications.WriteThenRead | src/services/api/jobApplicationService.js:136-150 | reading back a written record returns the values that were written: the write already applies every read default |
| JobApplications.GetAll | src/services/api/jobApplicationService.js:49-73 | a failed fetch gives `[]`; otherwise each record is mapped, in order |
| JobApplications.GetById | src/services/api/jobApplicationService.js:99-128 | `'Application not found'` exactly when the call failed or returned no record; otherwise the mapped record |
| JobApplications.FirstApplication | src/services/api/jobApplicationService.js:175-197 | success exactly when the call succeeded and some result succeeded, giving the mapping of the first success; otherwise the given error |
| JobApplications.CreateOutcome | src/services/api/jobApplicationService.js:154-197 | an error is always `'Failed to create application'`, and missing results are an error |
| JobApplications.UpdateOutcome | src/services/api/jobApplicationService.js:224-267 | an error is always `'Failed to update application'`, and missing results are an error |
| JobApplications.DeleteOutcome | src/services/api/jobApplicationService.js:281-302 | throws exactly when the call failed; true exactly when results are present and some succeeded; false when results are missing |
| JobApplications.GetByStatus | src/services/api/jobApplicationService.js:305-308 | every returned application has the requested status, and there are no more than in the input |
| JobApplications.GetByStatusAppend | src/services/api/jobApplicationService.js:306-307 | the filter distributes over concatenation, so it keeps the original order |
| JobApplications.GetByStatusSelects | src/services/api/jobApplicationService.js:306-307 | each application with the status is kept as often as it occurs, and the others not at all |
| JobApplications.GetByStatusMembers | src/services/api/jobApplicationService.js:306-307 | an application is returned exactly when it is in the input with that status |
| JobApplications.GetStatusCounts | src/services/api/jobApplicationService.js:310-316 | the `reduce` gives, for each status present, the length of its `getByStatus` list |
| JobApplications.StatusCounts | src/services/api/jobApplicationService.js:312-315 | the reference map of the `reduce`: one key per status present, the length of its `getByStatus` list; no count exceeds the number of applications |
| JobApplications.AbsentStatusSelectsNothing | src/services/api/jobApplicationService.js:307 | a status missing from the counts selects no application |
| JobApplications.StatusSetSnoc | src/services/api/jobApplicationService.js:313 | one more application adds exactly its status to the statuses present |
| JobApplications.StatusCountsSnoc | src/services/api/jobApplicationService.js:313 | one more application bumps the count of its own status, from 0 when new, and changes no other count |
| JobApplications.StatusCountsPositive | src/services/api/jobApplicationService.js:313 | the keys are exactly the statuses present, and each count is at least 1 |
| JobApplications.SumOverUnaffected | src/services/api/jobApplicationService.js:313 | changing a count outside the summed keys leaves the sum unchanged |
| JobApplications.SumOverBump | src/services/api/jobApplicationService.js:313 | bumping a listed key's count by one raises the sum by one |
| JobApplications.SumOverCountOneMore | src/services/api/jobApplicationService.js:313 | counting one more occurrence of a new or listed status raises the sum by one |
| JobApplications.StatusesSnoc | src/services/api/jobApplicationService.js:312-313 | one more application adds its status to the distinct statuses when new, and keeps them otherwise |
| JobApplications.StatusCountsAddUp | src/services/api/jobApplicationService.js:312-315 | the counts, summed once per status present, give the number of applications |

## Left out

- The record-store SDK (`fetchRecords`, `getRecordById`, `createRecord`, `updateRecord`, `deleteRecord`, `initClient`): foreign network calls. Their answers are inputs (`FetchResponse`, `GetResponse`, `MutationResponse`), and what create and update send is the record value the model builds.
- Server-side ordering and filtering (`orderBy`, and the `where` filters of `search`, `getByCategory` and `getByType`): the store does it, and the client only builds a query object.
- `toast.error` and `console.error`: user-interface and logging side effects with no effect on results.
- `delay`, `setTimeout` and `async`/`await`: timing only. The operations are modelled as functions of the answers they await.
- `new Date().toISOString().split('T')[0]`, the create default for `applied_date`: it reads the wall clock, so it is the parameter `today` of `ForCreate`.
- `getCategories` fetches through `getAll`: the model takes the fetched templates as input.
- `getByStatus` and `getStatusCounts` likewise take the applications `getAll` returned.
- `getByCategory` returns records without `createdAt` or `updatedAt`: it is a remote-filter path and is not part of this model.
- src/services/api/interviewService.js, src/services/api/documentService.js and src/services/api/reminderService.js are not part of this model. They copy store records field by field, and `reminderService.getUpcoming` depends on the clock and date parsing.
- src/Layout.jsx is not part of this model: it is React UI and routing.
- CoverLetterTemplates.PopulateTemplate: covers only bindings whose key has no regular-expression metacharacter and is not made only of digits and commas, and whose value has no `$`. For other keys the source's `new RegExp` matches a pattern instead of the literal `{key}`, or throws. For other values `$&` and similar replacement patterns apply, and integer-like keys are also reordered by `Object.entries`.
- Bindings are a sequence of key/value pairs in `Object.entries` order. Object key ordering itself is not modelled.
- JobApplications.AmountOrNull: models salary bounds as real numbers, so `NaN` (also falsy) and non-numeric values are not covered.
- JobApplications.GetStatusCounts: the `reduce` accumulates into a plain `{}`, so a status naming a member of `Object.prototype` (`constructor`, `toString`, `valueOf`, `hasOwnProperty` and the like) starts from that inherited function and gets a string such as `"function …}1"` as its count, and a status `__proto__` adds no key at all. The model's map counts every status from 0, so for these statuses its counts differ from the source's.
- Strings.Below: compares `char` values, which equals JavaScript's UTF-16 code-unit order only for characters of the Basic Multilingual Plane.
- Values of the wrong JavaScript type (a number where a string is expected, and so on) are not modelled: every field is a string, a number or missing.
- `extractVariables`'s default `subject = ''` is the caller passing `""`.
- No concrete lemma fills in a full letter with several bound names. The general lemmas `BoundReplacesEveryOccurrence` and `PopulateTemplate` cover this.
