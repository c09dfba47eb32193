# Job matcher pipeline, modelled in Dafny

The program pastes a resume next to a list of job titles, searches a job
board for recent postings under every title in two locations, scores every
posting against the resume by embedding similarity, and shows the postings
that score at least 60 % in descending order of score.

This project models the deterministic part of that pipeline:

- `Text` — the Python string primitives it uses: `str.split`, `str.join`,
  `str.strip` (with Python's own whitespace set), the substring test and the
  lower-casing done before it.
- `Cleaning` — `clean_job_text`: keep the lines of a description that mention
  responsibilities, requirements, skills or qualifications (case-insensitively)
  or are longer than 60 characters, and join them with single spaces.
- `Inputs` — the blank-input guard, the resume cut into paragraph chunks on
  blank lines, and the comma-separated titles, each stripped, blanks dropped.
- `Fetching` — `fetch_jobs`: one search `"<title> in <location>"` per pair,
  title-major; the HTTP exchange is a parameter `net` from query text to
  reply; replies that fail or do not have status 200 contribute nothing, and a
  non-object element of `data` ends its reply (the exception is swallowed).
- `Scoring` — `best_chunk_score` (0 on any encoding failure, and 0 for an empty
  chunk list, where `max` raises), the loop that keeps rows scoring at least the
  threshold, and the stable descending sort. The loop's specification `Matched`
  takes the per-posting score as a function; `Scorer(chunks, sim)` is the one
  the program uses. The embedding model is a parameter
  `sim(chunk, jobText)` giving the similarity in hundredths of a percent, or
  `None` when encoding fails. Scores are integers in hundredths of a percent, so
  `SIMILARITY_THRESHOLD = 60.0` is `Threshold = 6000`.
- `App` — `Generate`, the button handler: the guard, then chunking, parsing,
  fetching, scoring and ranking.

Two behaviours of the code are easy to miss. The guard tests the inputs after
`strip()`, so a title field such as `",,,"` passes it yet yields no titles and
so no searches (`Inputs.OnlyCommasYieldNoKeywords`). And `best_chunk_score`
also returns 0 when there are no chunks, although the guard makes that
unreachable from the button handler (`Inputs.NonBlankResumeHasChunks`).

## Model

| member | source | states |
|---|---|---|
| Text.TrimStart | app.py:112 | the result is a suffix of the input, everything removed is whitespace, and it does not start with whitespace |
| Text.TrimEnd | app.py:112 | the result is a prefix of the input, everything removed is whitespace, and it does not end with whitespace |
| Text.Strip | app.py:112 | the stripped string is empty exactly when the input is all whitespace, and it has no whitespace at either end |
| Text.StripRemovesEnds | app.py:112 | the input is whitespace, then the stripped string, then whitespace |
| Text.StripFixpoint | app.py:113 | stripping leaves a string unchanged exactly when it has no whitespace at either end |
| Text.LowerChar | app.py:58 | the result is never a capital (A-Z or KELVIN SIGN), and the character changes exactly when it is one |
| Text.Lower | app.py:58 | lower-casing keeps the length, leaves no capital, and changes exactly the capitals |
| Text.LowerCharTable | app.py:58 | each of A-Z becomes the letter at the same place in a-z, and KELVIN SIGN becomes `k` |
| Text.LowerIdempotent | app.py:58 | lower-casing twice is the same as lower-casing once |
| Text.LowerAppend | app.py:58 | lower-casing a concatenation lower-cases each part |
| Text.InfixExtend | app.py:58 | a substring of `x` is still a substring of `x + y` |
| Text.InfixPrepend | app.py:58 | a substring of `y` is still a substring of `x + y` |
| Text.Split | app.py:56 | `split` always returns at least one piece |
| Text.Join | app.py:57 | the first part is a prefix of the joined string |
| Text.JoinAppend | app.py:57 | joining two non-empty runs of parts puts exactly one separator between their joins |
| Text.JoinContainsParts | app.py:57 | every part occurs, whole, in the joined string |
| Text.JoinSplit | app.py:56 | joining the pieces of `s.split(sep)` with `sep` gives back `s` |
| Text.SplitAvoidsSep | app.py:56 | no piece of a split on one character contains that character |
| Text.SplitWithoutSep | app.py:56 | a string without the separator splits into itself alone |
| Text.JoinAvoids | app.py:57 | joining parts and a separator that avoid a character gives a string that avoids it |
| Text.JoinAllSpace | app.py:112 | joining blank parts with a blank separator gives a blank string |
| Cleaning.KeptLines | app.py:58 | a line is in the result exactly when it is in the input and mentions a requirement marker after lower-casing or is longer than 60 characters |
| Cleaning.KeptLinesAppend | app.py:57-58 | the filter works line by line, so the kept lines keep their input order |
| Cleaning.CleanJobText | app.py:55-59 | the cleaned text contains no newline, and it is empty exactly when no line is kept |
| Cleaning.CleanJobTextKeeps | app.py:56-58 | every kept line of the description appears whole in the cleaned text |
| Cleaning.KeptJoinedInOrder | app.py:57-58 | the kept lines of two runs of lines are joined in input order with a single space between the runs |
| Cleaning.KeepIgnoresCase | app.py:58 | two lines that differ only in the case of ASCII letters are both kept or both dropped |
| Cleaning.EmptyLineDropped | app.py:58 | an empty line is never kept |
| Cleaning.KeptPrefix | app.py:58 | a kept line stays kept when more text follows it |
| Cleaning.CleanJobTextIdempotent | app.py:55-59 | cleaning an already cleaned text returns it unchanged |
| Inputs.StrippedNonEmpty | app.py:112 | every result is non-empty and has no whitespace at either end |
| Inputs.StrippedNonEmptyMembers | app.py:112 | the results are exactly the non-blank pieces, stripped |
| Inputs.StrippedNonEmptyAppend | app.py:112 | the comprehension works piece by piece, so the results keep the order of the pieces |
| Inputs.NonBlankResumeHasChunks | app.py:107-112 | a resume that passes the guard gives at least one chunk |
| Inputs.KeywordsWellFormed | app.py:113 | every parsed title is non-empty, stripped and free of commas |
| Inputs.OnlyCommasYieldNoKeywords | app.py:107-113 | the title field `",,,"` passes the guard and yields no titles |
| Fetching.ItemJobs | app.py:91-100 | at most one posting per element of `data`, each tagged with its search |
| Fetching.ItemJobsLeadingEntries | app.py:91-100 | the postings of a reply are built from its leading objects, one each and in order, and stop only at the end of `data` or at its first non-object |
| Fetching.ReplyJobs | app.py:87-102 | every posting from one reply is tagged with the search that got it |
| Fetching.Plan | app.py:78-81 | there are exactly titles times locations searches |
| Fetching.PlanAt | app.py:78-81 | search number i × (number of locations) + j is title i in location j |
| Fetching.PlanMembers | app.py:78-81 | every search pairs one of the titles with one of the locations |
| Fetching.FetchedAppend | app.py:77-103 | the postings of two runs of searches are the postings of each, in order |
| Fetching.FetchedTagged | app.py:98-99 | every posting carries the title and location of a search that was made |
| Fetching.JobsTagged | app.py:78-100 | every fetched posting names one of the titles and one of the locations |
| Fetching.ReadReply | app.py:89-100 | the loop over `data` records exactly the postings of the reply |
| Fetching.FetchRow | app.py:79-102 | the searches for one title are one per location in order, and the postings are those of each reply in that order |
| Fetching.FetchJobs | app.py:72-103 | the searches made are the title-major plan, and the postings are those of each reply in search order |
| Scoring.ChunkScores | app.py:64-67 | all similarities are present exactly when no encoding fails, one per chunk, in chunk order |
| Scoring.Max | app.py:68 | the maximum is an element of the list and no element exceeds it |
| Scoring.BestChunkScore | app.py:61-70 | 0 when there are no chunks or an encoding fails; otherwise the similarity of some chunk, and no chunk's similarity exceeds it |
| Scoring.Matched | app.py:118-129 | every row appended scores at least the threshold |
| Scoring.MatchedMembers | app.py:118-129 | a row is appended exactly when it is the row of a posting that scores at least the threshold |
| Scoring.MatchedAppend | app.py:119-129 | the loop handles postings one at a time, keeping their order |
| Scoring.BelowThresholdDropped | app.py:121-129 | a posting scoring below the threshold leaves the rows as if it had never been fetched |
| Scoring.FailedScoringDropsJob | app.py:118-122 | a posting whose encoding fails scores 0, and the rows are the same as if it had never been fetched |
| Scoring.Insert | app.py:131 | inserting into a descending list gives a descending list with one more element |
| Scoring.SortByScore | app.py:131 | the sorted rows are in descending score order and are a permutation of the input |
| Scoring.InsertStable | app.py:131 | insertion puts the new row before the rows with its score and moves no other row |
| Scoring.SortStable | app.py:131 | for every score, the rows with that score keep their original relative order |
| Scoring.ScoreJobs | app.py:118-131 | the result is the sorted list of rows of the postings scoring at least the threshold, descending, all at least the threshold |
| App.Generate | app.py:106-131 | blank input gives a warning and nothing else; otherwise at least one chunk, two searches per title in plan order, the postings they return, and the ranked rows |

## Left out

- The Streamlit page (layout, widgets, spinner, messages, the count of fetched postings): rendering only.
- The API-key check and `st.stop()` at start-up: environment and I/O.
- The HTTP request itself, its headers and its fixed parameters (page, number of pages, date range, employment types): `net` stands for the whole exchange, keyed by the query text, so a title listed twice gets the same reply both times.
- JSON field values that are not strings: `Item` holds string-valued fields only, so every recorded posting has a string description.
- Scoring.ScoreJobs: promises rows for every fetched posting; in the program a posting whose `job_description` is JSON `null` makes `clean_job_text` raise on `None.split`, which nothing in the scoring loop catches, so the handler stops without rows. The model cannot express that posting (see the line above).
- App.Generate: promises a ranked outcome whenever the guard passes; for the same reason it does not model the run that ends with that uncaught exception.
- Loading the embedding model, `model.encode` and `util.pytorch_cos_sim`: floating-point tensors from a foreign library; `sim` stands for them. A failure to encode the job text is represented by `sim` failing for every chunk of that text.
- Scoring.BestChunkScore: the float product by 100 and `round(..., 2)` are not modelled; `sim` already yields the similarity in hundredths of a percent.
- Text.Lower: maps only A-Z and KELVIN SIGN (U+212A, whose lower case is `k`); every other character is kept as is. Python lower-cases more, but into text that cannot complete one of the ASCII requirement markers (U+0130 becomes `i` plus a combining dot, and no marker has `i` followed by that dot or ending in `i`), so whether a line contains a marker comes out the same.
- pandas `DataFrame`, the results table and the CSV download: library wrappers and I/O.
