# legal-summarizer: a verified model of the summarising server and sign-up form

This project models the core of legal-summarizer, an Express server that
turns an uploaded legal PDF into a short summary, together with its account
routes and the React sign-up form. Each part is a Dafny module, one per file:

- `JsString` (js_string.dfy): the JavaScript string semantics the code relies
  on. It has the `\s` class that `trim` strips, the line terminators that a
  regular-expression `.` refuses, ASCII `\w`, and `length` in UTF-16 units.
- `TextPreprocessor` (text_preprocessor.dfy): `preprocessText`. It runs the
  three rewrites, then the chunking scan `text.match(/.{1,300}(?=\s|$)/g)`,
  then the "empty after preprocessing" error. The scan is modelled as the
  regular-expression engine runs it:
  - at each position, a greedy run of up to 300 non-terminator characters;
  - backtracking to the longest prefix followed by `\s` or the end;
  - on failure, a retry one character later.
- `MemoryGuard` (memory_guard.dfy): `checkMemoryUsage` on one memory reading.
- `BatchScheduler` (batch_scheduler.dfy): `processBatch`, and the loop that
  checks memory before each batch of four sections and collects the results.
- `ResultAggregator` (result_aggregator.dfy): the final
  `results.filter(s => s).join('\n\n')` and the blank-summary error.
- `SummarizeEndpoint` (summarize_endpoint.dfy): the `POST /api/summarize`
  handler. It has every early return and thrown error with its status code
  and message. The specification function is `Outcome`; the step-by-step
  method is `SummarizeDocument`.
- `Accounts` (accounts.dfy): `validateRegistration`, the register, login and
  document-delete routes, and the `users` and `documents` maps as a
  `UserStore` class. The class keeps an invariant: every user sits under its
  own id, and no two users share an email or a username.
- `SignUp` (sign_up.dfy): the `SignUp` component's form state as a class,
  with `handleChange`, `validateForm` and `handleSubmit`.

A few external inputs are parameters:
- the text `pdf-parse` extracts;
- whether the model is loaded, and whether loading it would succeed;
- the memory readings;
- the summariser;
- `bcrypt`, the token's user id and `Date.now()`.

The summariser is a function from a section to one of three outcomes: a
summary, no summary, or a thrown error.

One behaviour of the chunking scan is worth knowing. When a word is longer
than 300 characters, no attempt that starts inside the word's first
characters can reach a boundary. The scan skips them, and they are missing
from the chunks. `TextPreprocessor.LongFirstWordIsCut` proves that the
chunks then no longer spell the text. `TextPreprocessor.ChunksLossless`
proves that the chunks do spell it when every word is shorter than 300
characters.

## Model

| member | source | states |
|---|---|---|
| JsString.TrimStart | backend/server.js:126 | the result is a suffix of the input; every dropped character is `\s`; the result does not start with `\s` |
| JsString.TrimEnd | backend/server.js:126 | the result is a prefix of the input; every dropped character is `\s`; the result does not end with `\s` |
| JsString.TrimEmptyIffAllSpace | backend/server.js:139-141 | `trim()` gives the empty string exactly when every character is `\s` |
| JsString.Utf16Length | backend/server.js:156 | `length` in UTF-16 units lies between the number of code points and twice that |
| TextPreprocessor.CollapseChars | backend/server.js:126 | each character after `replace(/\s+/g, ' ')` is the single space of a run, or a non-`\s` character of the input |
| TextPreprocessor.CollapseNoDoubleSpace | backend/server.js:126 | after the rewrite no two spaces are adjacent |
| TextPreprocessor.CollapseKeepsVisible | backend/server.js:126 | the rewrite keeps every non-`\s` character, in order, and adds none |
| TextPreprocessor.NormalizeShape | backend/server.js:126-132 | after the three rewrites, every character is a space, a `\w` character or one of `. , ; : ( ) [ ] { } ' " -`, and no two spaces are adjacent |
| TextPreprocessor.NormalizedHasNoLineTerminator | backend/server.js:126-136 | normalised text holds no character that `.` refuses |
| TextPreprocessor.NormalizedBlankWhenTextBlank | backend/server.js:126-132 | blank text stays blank through the three rewrites |
| TextPreprocessor.BlankTextFailsPreprocessing | backend/server.js:123-141 | text that trims to nothing is refused with "Text is empty after preprocessing" |
| TextPreprocessor.RunLengthStops | backend/server.js:136 | the greedy `.{1,300}` run holds no line terminator, and it stops short of 300 only at a line terminator or at the end |
| TextPreprocessor.LongestFitIsLongest | backend/server.js:136 | backtracking stops at a position where `(?=\s\|$)` holds, and no longer prefix of the run satisfies it |
| TextPreprocessor.MatchAtFacts | backend/server.js:136 | the attempt at one position is the longest prefix of the greedy run that ends at a boundary, and the run stops only where `.` or the cap stops it |
| TextPreprocessor.MatchesAreMatches | backend/server.js:136 | every match the `g` scan returns starts at or after the scan's start and satisfies the match predicate: length 1..300, no line terminator, followed by `\s` or the end, longest such |
| TextPreprocessor.MatchesOrdered | backend/server.js:136 | the scan's matches are in text order and do not overlap |
| TextPreprocessor.MatchExists | backend/server.js:136 | when every word is shorter than the chunk size, the attempt at every position succeeds |
| TextPreprocessor.ChunksLossless | backend/server.js:136 | on text without line terminators whose words are all shorter than the chunk size, the chunks concatenate back to the text |
| TextPreprocessor.ChunksLength | backend/server.js:136 | the matches from a position on, concatenated, are never longer than the rest of the text |
| TextPreprocessor.LongFirstWordIsCut | backend/server.js:136 | when the text starts with a word longer than the chunk size, the chunks do not concatenate back to the text |
| TextPreprocessor.ChunksNonEmpty | backend/server.js:136 | non-empty text whose last character is not a line terminator yields at least one match |
| TextPreprocessor.ChunksOfNormalized | backend/server.js:135-136 | normalised non-blank text yields at least one chunk, each chunk has length 1..size, and the chunks concatenate back to the text when every word fits |
| TextPreprocessor.ChunkOrRefuse | backend/server.js:135-141 | on normalised text, the blank test `!text.trim()` refuses exactly the blank text; otherwise the chunks number at least one, each of length 1..300, and spell the text when every word is shorter than 300 |
| TextPreprocessor.PreprocessText | backend/server.js:123-148 | fails with "Text is empty after preprocessing" exactly when the normalised text is blank; otherwise it gives at least one chunk, each of length 1..300, and the chunks spell the normalised text when every word is shorter than 300 |
| MemoryGuard.AdmitsIffRatioWithinThreshold | backend/server.js:458-471 | for a non-zero total, the integer test admits exactly when `(total - free) / total <= 0.8` over the reals |
| BatchScheduler.ProcessBatch | backend/server.js:286-306 | one result per section of the batch |
| BatchScheduler.ProcessBatchAt | backend/server.js:287-303 | result `i` is section `i`'s summary text, or `''` when the summariser threw or gave no `summary[0]` |
| BatchScheduler.ProcessBatchAppend | backend/server.js:318-320 | processing two consecutive slices and pushing both results equals processing their concatenation |
| BatchScheduler.FailedSectionDropsOut | backend/server.js:300-303 | a section whose summary fails contributes nothing to the filtered results; the rest keep their order |
| BatchScheduler.SummaryIffSomeSectionSummarised | backend/server.js:286-337 | aggregation succeeds exactly when some section's summary is not blank |
| BatchScheduler.NumBatches | backend/server.js:309-313 | the loop runs `ceil(n / 4)` times |
| BatchScheduler.FirstDenied | backend/server.js:313-316 | the first batch whose memory check denies, if any; every batch before it is admitted |
| BatchScheduler.NoneDeniedIffAllAdmitted | backend/server.js:313-316 | no batch is denied exactly when every batch's memory check admits |
| BatchScheduler.RunBatches | backend/server.js:308-326 | if no check denies, the results are `ProcessBatch` of all sections, dispatched in the slices `[4b, min(4b + 4, n))`; otherwise it fails at the first denied batch, after dispatching exactly the batches before it; progress after batch `b` is `min(4(b + 1), n)` |
| ResultAggregator.NonEmpty | backend/server.js:328 | the filter keeps only non-empty strings and never adds any |
| ResultAggregator.NonEmptyKeepsExactly | backend/server.js:328 | a string survives the filter exactly when it is non-empty and in the input |
| ResultAggregator.NonEmptyBlankIff | backend/server.js:328 | the survivors are all blank exactly when every input is blank |
| ResultAggregator.NonEmptyAppend | backend/server.js:328 | filtering distributes over concatenation |
| ResultAggregator.NonEmptySkipsEmpty | backend/server.js:302 | an `''` slot contributes nothing to the filtered list |
| ResultAggregator.JoinBlankIffPartsBlank | backend/server.js:328 | joined with a blank separator, the text is blank exactly when every part is |
| ResultAggregator.Aggregate | backend/server.js:328-337 | fails exactly when every fragment is blank; otherwise the summary is the non-empty fragments joined by `"\n\n"`, and it is not blank |
| SummarizeEndpoint.SummarizeDocument | backend/server.js:241-351 | the handler's result is `Outcome`: the early returns in the source's order, each failure with its own status and message; on success the last progress count is the number of sections |
| SummarizeEndpoint.RespondSuccessIff | backend/server.js:265-343 | once preprocessing has answered, the request succeeds exactly when it gave sections, the first memory check admits, every per-batch check admits, and some section's summary is not blank |
| SummarizeEndpoint.SuccessIff | backend/server.js:241-351 | the request succeeds exactly when a file came, the model is or can be loaded, the text is not blank, preprocessing succeeds, every memory check admits, and some section's summary is not blank |
| SummarizeEndpoint.AllSectionsFailing | backend/server.js:300-303 | if the summariser fails on every section, the request fails |
| SummarizeEndpoint.DenialAborts | backend/server.js:313-316 | once preprocessing has given sections, a denied memory check before any batch ends the request with the busy or the memory-limit error; no partial summary is returned |
| Accounts.ValidateRegistration | backend/server.js:151-163 | "All fields are required" exactly when a field is empty; the short-password error exactly when all fields are present and the UTF-16 length is below 6; the email error exactly when those pass and `/\S+@\S+\.\S+/` finds no match |
| Accounts.RegistrationCheck | backend/server.js:151-175 | registration may proceed exactly when validation passes and no stored user has the email or the username; "already exists" exactly when validation passes and one does |
| Accounts.InsertKeepsConsistent | backend/server.js:177-179 | storing a user whose email and username are free keeps ids unique, every user under its own id, and emails and usernames unique |
| Accounts.InterleavedRegistrationsShareEmail | backend/server.js:171-179 | two registrations for one email whose scans both ran before either `users.set` both pass, and the store ends with two users sharing that email |
| Accounts.InterleavedRegistrationsOnEmptyStore | backend/server.js:171-179 | concrete case: on an empty store, `ann` and `bob` both registering `a@b.c` pass both scans and leave an inconsistent store |
| Accounts.SerialRegistrationRefusesDuplicate | backend/server.js:171-179 | run one after the other, the store stays consistent and the second registration for that email is refused with "already exists" |
| Accounts.FindByEmail | backend/server.js:207-213 | the login scan finds nothing exactly when no user has the email; otherwise it finds the first user in insertion order with that email |
| Accounts.FindByOwnEmail | backend/server.js:207-213 | with unique emails, the scan finds each stored user by its own email |
| Accounts.RegisteredUserIsFound | backend/server.js:166-213 | a user just registered is the one a login scan for its email finds |
| Accounts.IndexOf | backend/server.js:367 | `indexOf` is absent exactly when the id is not in the list; otherwise it is the first position holding the id |
| Accounts.RemoveFirstOccurrence | backend/server.js:367-373 | splicing at `indexOf` removes exactly one copy of the id and shortens the list by one |
| Accounts.UserStore.CheckRegistration | backend/server.js:151-175 | the scan before hashing answers `RegistrationCheck` on the current store, and changes nothing |
| Accounts.UserStore.CommitRegistration | backend/server.js:178-179 | `users.set(user.id, user)` replaces or appends the entry and touches nothing else |
| Accounts.UserStore.Register | backend/server.js:166-200 | keeps the store consistent; refuses invalid fields with their error, and taken emails or usernames with "already exists", changing nothing; otherwise stores `User(now, username, email, hash(password), [])` under `now` |
| Accounts.UserStore.Login | backend/server.js:202-238 | succeeds exactly when some user has the email and `verify` accepts the password against its hash; the user returned is the scan's first match |
| Accounts.UserStore.DeleteDocument | backend/server.js:364-379 | 401 exactly when the token (checked by `auth`) gives no known user; 404 exactly when the user's list lacks the id; otherwise it removes the first occurrence from that list and the id from `documents`, and changes nothing else |
| SignUp.With | src/components/SignUp.js:16-22 | the named field takes the new value and every other field keeps its value |
| SignUp.ValidateForm | src/components/SignUp.js:24-42 | each of the four messages is returned exactly when its check is the first to fail; accepted exactly when all four pass |
| SignUp.ServerEmailHasAt | backend/server.js:158-160 | every email the server's pattern accepts contains `@` |
| SignUp.AcceptedFormPassesServerChecks | src/components/SignUp.js:24-42 | a form the component accepts passes the server's field and length checks; only its email pattern can still refuse it |
| SignUp.FormAcceptsWhatServerRefuses | src/components/SignUp.js:37-40 | `a@b` passes the form's email check and is refused by the server's |
| SignUp.SignUpForm.constructor | src/components/SignUp.js:6-13 | all four fields empty, no error, not loading, nothing sent |
| SignUp.SignUpForm.HandleChange | src/components/SignUp.js:16-22 | sets only the named field and clears the error |
| SignUp.SignUpForm.HandleSubmit | src/components/SignUp.js:44-70 | an invalid form shows its message and sends nothing; a valid one is posted once (username, email, password); the success message navigates to login; a failure shows the server's error or the fallback; `loading` ends false |

## Left out

- Framework plumbing is not modelled: Express routing, multer, the rate limiter, CORS, `fs.unlink` of the upload, `startServer`, and `GET /api/documents`.
- `pdf-parse` is not modelled: the handler receives the extracted text as `upload`.
- Model loading (`initializeModel`) is not modelled: the handler receives two booleans, whether the model is loaded and whether loading would succeed.
- The transformer summariser and its generation options are not modelled: the summariser is the parameter `infer`.
- BatchScheduler.ProcessBatch: `Promise.all` over a batch is modelled as an ordered map. Results keep their positions as `Promise.all` keeps them, but the sections are not run concurrently.
- BatchScheduler.ProcessBatch: `infer` is a function, so identical sections get identical outcomes. A nondeterministic model, or one that fails only sometimes, is not captured.
- BatchScheduler.RunBatches: the 50 ms `setTimeout` between batches and the timing and percentage log (`updateProgress`) are not modelled. Only the processed-section count is kept.
- MemoryGuard.Admits: the float ratio against `0.8` is modelled as the exact test `5 * used <= 4 * total`. Floating-point rounding near the threshold is not modelled. A total of 0 admits, as JavaScript's NaN and -Infinity comparisons do.
- SummarizeEndpoint.SummarizeDocument: the `sections.length === 0` check (backend/server.js:268-270) is omitted. It cannot be reached: successful preprocessing always yields at least one chunk (`PreprocessText`).
- TextPreprocessor.PreprocessText: the chunks are proved to spell the normalised text only when every word is shorter than 300 characters. Longer words lose characters in the source too (`LongFirstWordIsCut`), so no stronger promise holds.
- Accounts: `bcrypt.hash` and `bcrypt.compare` are the parameters `hash` and `verify`. `jwt.sign`, `jwt.verify` and `auth` become the token's user id, given as an `Option`. `Date.now()` is the parameter `now`.
- Accounts.ValidateRegistration: request fields are strings. Non-string JSON values are not modelled: for example, a numeric password has no `length` and passes the length check.
- Accounts.UserStore.Register: registrations are serialised. `CheckRegistration` and `CommitRegistration` model the two halves around `await bcrypt.hash`, and the interleaving lemmas show what happens when two registrations overlap.
- Accounts.UserStore: `documents` holds only document ids. What a stored document holds is not modelled, because no modelled route reads it.
- SignUp.SignUpForm.HandleSubmit: `reply` stands for the awaited `axios.post` outcome. Network failures without a response body appear as `Failed("")`.

## Findings

| source | as written | input that shows it | evidently intended | confidence | as-written member | corrected member |
|---|---|---|---|---|---|---|
| backend/server.js:171-179 | the duplicate scan runs before `await bcrypt.hash`, and `users.set` runs after it with no second look, so another registration can pass its scan in between | on an empty store, `ann` and `bob` both register `a@b.c`, and both scans run before either insert | at most one account per email and per username | medium, not executed | Accounts.InterleavedRegistrationsOnEmptyStore | Accounts.UserStore.Register |

The general form of the as-written half is `Accounts.InterleavedRegistrationsShareEmail`. For the corrected half, `Accounts.UserStore.Register` performs check and commit as one step and keeps `Consistent`. `Accounts.SerialRegistrationRefusesDuplicate` shows the second registration is then refused.
