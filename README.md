# Agricultural land-document archive: a verified model of its core

The archive stores scanned and digital documents about agricultural land (title deeds,
lease contracts, survey maps and so on) for an Iraqi agricultural directorate. It
extracts each document's text, classifies and summarises it, and stores the document
with structured metadata. Users can then browse, search, edit and count the documents.
This project models three parts of it in Dafny and proves what each part promises:

- **On-device enrichment** (`frontend/app/utils/localAI.ts`, module `LocalAI`). It has
  five parts:
  - a keyword-scoring classifier over six categories, with the fallback "أخرى";
  - a keyword extractor that keeps the seven most frequent tokens;
  - a summariser that splits the text into sentences;
  - two labelled-field extractors, for the owner and the location, each built on a
    regular expression;
  - a land-type lookup.

  The orchestrator chains them and has its own failure path.
- **Embedded SQLite store** (`frontend/app/utils/database.ts`, module `LocalStore`). A
  `users` table and a `documents` table sit behind a handle that exists only after
  `initDatabase`. The model enforces the tables' constraints: NOT NULL, unique
  usernames and unique primary keys. It also models the `|| ''` defaults of
  `createDocument`. Each query becomes a function over the rows:
  - `ORDER BY created_at DESC` with a `LIMIT`;
  - `LIKE` search over six columns;
  - `GROUP BY auto_category`.
- **FastAPI server** (`backend/server.py`):
  - Module `ReplyParser` covers `process_document_with_ai`: the short-text fallback,
    the line-by-line parser of the analysis model's reply, the 5000-character
    truncation and the error path.
  - Module `ServerStore` covers the handlers over the two Mongo collections: `register`,
    `login`, `get_documents`, `smart_search`, `get_document`, `update_document`,
    `delete_document` and `get_statistics`. Each handler's outcome is a
    `Result<_, Status>`, and each `Status` maps to its HTTP code.

Two modules are generic support:

- `Seqs`:
  - filtering;
  - a stable insertion sort, descending by a key;
  - de-duplication;
  - tallies for group counts;
  - a "first index" search;
  - lemmas about taking the first `n` rows of a sorted selection, directly or through a
    projection of each row.
- `Text`:
  - ASCII lower-casing;
  - JavaScript and Python whitespace;
  - trimming, splitting and substring search.

`Wrappers` holds `Option` and `Result`.

## How the model is organised

- Pure code is modelled as functions, and what they promise is proved as lemmas. This
  covers the scoring, the keyword ranking, the summary, the regular-expression
  matcher, the reply parser, the SQL queries and the Mongo queries.
- Code that loops and updates variables is modelled as methods. Each method runs that
  loop and is proved equal to the function that specifies it:
  - the classifier's running maximum;
  - the word-count dictionary;
  - the first pattern that matches;
  - the land-type table scan;
  - the reply-line loop.
- Each of the two databases is a class. Its fields are sequences of rows, and its
  methods update them in place. `LocalStore.LocalDatabase` keeps the SQLite
  constraints as its invariant. `ServerStore.ServerDatabase` promises that each update
  keeps usernames and document ids unique, if they were unique before.
- Foreign calls are parameters, because their outcomes decide the branches:
  - OCR, the temporary image file, the PDF and Word readers and the language-model call;
  - the clock, which is a `now: nat` tick;
  - fresh ids.

  An `Option` input whose value is `None` stands for a call that threw.

## Model

| member | source | states |
|---|---|---|
| LocalAI.Score | frontend/app/utils/localAI.ts:32-37 | A category's score never exceeds the number of its keywords |
| LocalAI.ScoreZeroIff | frontend/app/utils/localAI.ts:32-37 | A score is 0 exactly when none of the category's keywords occurs in the text |
| LocalAI.ScoreCountsMatches | frontend/app/utils/localAI.ts:32-37 | For distinct keywords, the score is the number of distinct keywords found in the text |
| LocalAI.ClassifyDocument | frontend/app/utils/localAI.ts:15-45 | The loop returns the best category of the lowered text plus title: the first category with the strictly highest positive score, or "أخرى" when every score is 0 |
| LocalAI.BestCategoryUnique | frontend/app/utils/localAI.ts:28-44 | Exactly one category can be best: classification is a function of its input |
| LocalAI.ClassifyOtherIff | frontend/app/utils/localAI.ts:28-44 | The classifier says "أخرى" exactly when no keyword of any category occurs; otherwise it names a category of the table |
| LocalAI.CategoryNamesDiffer | frontend/app/utils/localAI.ts:19-29 | No category of the table is named "أخرى", so "أخرى" always means no keyword matched |
| LocalAI.CleanTokenChars | frontend/app/utils/localAI.ts:61 | Once the punctuation `.,!?;:()` is removed from a whitespace-free token, no punctuation or whitespace is left in it |
| Text.SplitRunsGaps | frontend/app/utils/localAI.ts:60 | `split(/\s+/)` loses only the whitespace runs: the pieces with the runs between them give the text back, every run is a non-empty stretch of whitespace, pieces hold none, and only the first and last piece can be empty |
| Text.SplitEachJoin | backend/server.py:231 | Splitting on a single separator character and joining with it gives the string back |
| LocalAI.Words | frontend/app/utils/localAI.ts:59-63 | A word is kept exactly when it is the cleaned form (punctuation removed, trimmed) of one of the text's whitespace-separated pieces, has more than two characters and is not a stop word when lower-cased; kept words hold no punctuation or whitespace |
| LocalAI.CountWords | frontend/app/utils/localAI.ts:66-69 | The forEach loop builds the word-count dictionary: its keys in insertion order, and each word's count |
| LocalAI.CountMapCounts | frontend/app/utils/localAI.ts:66-69 | A word is a key of the dictionary exactly when it occurs, and its count is its number of occurrences |
| LocalAI.CountStep | frontend/app/utils/localAI.ts:67-69 | One loop step adds a new key at the end of the key order or increments an existing key's count |
| LocalAI.ExtractKeywords | frontend/app/utils/localAI.ts:48-78 | The method returns the keyword list that `Keywords` specifies |
| LocalAI.DictionaryRanks | frontend/app/utils/localAI.ts:72-75 | Sorting the dictionary's entries in `Object.entries` order by count gives the ranking that the keyword specification uses |
| LocalAI.KeysInEntries | frontend/app/utils/localAI.ts:72 | `Object.entries` lists every key exactly once: array-index keys first, then the other keys |
| LocalAI.RankedFacts | frontend/app/utils/localAI.ts:72-73 | The ranking holds each distinct word exactly once, sorted by descending frequency |
| LocalAI.TopTokens | frontend/app/utils/localAI.ts:74-75 | The first n of the ranking are at most n distinct words of the text |
| LocalAI.TopOrdered | frontend/app/utils/localAI.ts:73-74 | The first n of the ranking are in non-increasing order of frequency |
| LocalAI.TopIsTop | frontend/app/utils/localAI.ts:73-74 | A word left out of the first n occurs no more often than any word kept |
| LocalAI.KeywordsWellFormed | frontend/app/utils/localAI.ts:48-78 | Text of fewer than 10 characters gives []; otherwise there are exactly as many keywords as distinct kept words, capped at 7, they are distinct, and each is a kept token: longer than 2 characters, not a stop word, and free of punctuation |
| LocalAI.KeywordsRanked | frontend/app/utils/localAI.ts:72-75 | The keywords are in descending frequency, and no left-out token is more frequent than a keyword |
| LocalAI.KeywordsTieOrder | frontend/app/utils/localAI.ts:72-75 | Among equally frequent keywords, the order is the engine's key order: array-index tokens by numeric value come before the other tokens, which keep their first-appearance order |
| LocalAI.TopTieOrder | frontend/app/utils/localAI.ts:72-75 | The same tie order for any prefix of the ranking |
| LocalAI.StableTie | frontend/app/utils/localAI.ts:73 | The sort is stable: equally frequent words keep the `Object.entries` order |
| LocalAI.IndexKeysSorted | frontend/app/utils/localAI.ts:72 | The sorted array-index part of the entry order holds only array-index keys |
| LocalAI.IndexTie | frontend/app/utils/localAI.ts:72 | Array-index keys come in ascending numeric order |
| LocalAI.NamedNotBeforeIndex | frontend/app/utils/localAI.ts:72 | No named key comes before an array-index key |
| LocalAI.NamedTie | frontend/app/utils/localAI.ts:72 | Named keys come in insertion order |
| LocalAI.BeforeLeftOnly | frontend/app/utils/localAI.ts:72 | An order fact about a concatenation transfers to its left part |
| LocalAI.TrimEach | frontend/app/utils/localAI.ts:88 | One result per piece: the piece with its leading and trailing JavaScript whitespace removed and nothing else (a slice with only whitespace around it, neither starting nor ending with whitespace) |
| LocalAI.SpansWellFormed | frontend/app/utils/localAI.ts:87-89 | Every sentence span that is kept has more than 10 characters, contains no terminator from `.۔।!؟`, and is trimmed at both ends |
| LocalAI.GenerateSummary | frontend/app/utils/localAI.ts:81-105 | Text of fewer than 20 characters gives the title template; with no long span, the word-count template; otherwise the summary has at most 150 characters |
| LocalAI.JoinTakeThree | frontend/app/utils/localAI.ts:96-97 | Joining the first min(3, n) spans with ". " gives the first one, two or three spans |
| LocalAI.SummaryOfSpans | frontend/app/utils/localAI.ts:96-104 | With spans present, the summary is the join of the first three spans, or its first 147 characters followed by "..." when the join is longer than 150 |
| LocalAI.RunLength | frontend/app/utils/localAI.ts:110-113 | The greedy run of a character class: every character in the run belongs to the class, and the run ends at the end of the text or at a character outside the class |
| LocalAI.LastCaptureStart | frontend/app/utils/localAI.ts:110-113 | While the separator run `[:\s]+` backtracks, the last position at which a capture can start |
| LocalAI.MatchAt | frontend/app/utils/localAI.ts:110-113 | A match of `LABEL[:\s]+([^\n.،]+)` (case-insensitive) at a position is a valid match |
| LocalAI.MatchAtIsPreferred | frontend/app/utils/localAI.ts:110-113 | No match at a position exactly when no valid match exists there; otherwise the match found is the backtracking engine's choice: the longest separator, then the longest capture |
| LocalAI.CaptureOf | frontend/app/utils/localAI.ts:117-119 | A captured group is non-empty and holds no newline, full stop or Arabic comma |
| LocalAI.Leftmost | frontend/app/utils/localAI.ts:117 | The leftmost position that satisfies a predicate, or none when no position does |
| LocalAI.RegexMatchMisses | frontend/app/utils/localAI.ts:117 | `text.match` fails exactly when the pattern matches at no position |
| LocalAI.RegexMatchIsLeftmost | frontend/app/utils/localAI.ts:117 | A successful match is the capture at the leftmost matching position |
| LocalAI.RegexCapture | frontend/app/utils/localAI.ts:117-118 | A successful match's group is non-empty, so `match[1]` is truthy |
| LocalAI.ExtractLabelled | frontend/app/utils/localAI.ts:116-123 | The loop returns the trimmed capture of the first pattern that matches, or null when none matches |
| LocalAI.ExtractOwnerName | frontend/app/utils/localAI.ts:108-124 | Owner name: the first match among the four owner labels, tried in order |
| LocalAI.ExtractLocation | frontend/app/utils/localAI.ts:127-144 | Location: the first match among the five location labels, tried in order |
| LocalAI.ExtractedHasNoBreaks | frontend/app/utils/localAI.ts:110-119 | An extracted value contains no newline, full stop or Arabic comma |
| LocalAI.FirstLabelMatchUnique | frontend/app/utils/localAI.ts:116-123 | The extractor's answer is determined by its input |
| LocalAI.FirstHitUnique | frontend/app/utils/localAI.ts:116-121 | At most one pattern is the first to match |
| LocalAI.ExtractLandType | frontend/app/utils/localAI.ts:147-166 | The loop returns the first land type that has a keyword occurring in the lowered text, or null when none has |
| LocalAI.FirstTableHitUnique | frontend/app/utils/localAI.ts:157-165 | The land type is determined by the text and is a type of the table |
| LocalAI.ProcessDocumentWithLocalAI | frontend/app/utils/localAI.ts:169-237 | The extracted text has at most 5000 characters; a failure on the image path gives the degraded record. Otherwise every field is the output of its step on the source text, and an optional field is present only when its value is non-empty |
| LocalStore.InsertUser | frontend/app/utils/database.ts:11-68 | A NULL username, password or full name violates NOT NULL; otherwise a duplicate username or id violates uniqueness; otherwise the row is appended with `role` as given and the table's constraints still hold |
| LocalStore.FindUser | frontend/app/utils/database.ts:70-77 | Some row is found exactly when a user has that exact username, and it is such a user |
| LocalStore.FindUserUnique | frontend/app/utils/database.ts:70-77 | With unique usernames, the lookup returns the one user of that name |
| LocalStore.InsertThenFind | frontend/app/utils/database.ts:61-77 | After a successful insert, looking up the username finds the inserted row |
| LocalStore.AllFieldsComplete | frontend/app/utils/database.ts:20-38 | The column list covers every document column |
| LocalStore.FieldListed | frontend/app/utils/database.ts:20-38 | Each column is in the column list |
| LocalStore.NewRow | frontend/app/utils/database.ts:86-113 | The new row carries the given id and both timestamps set to now. Title, file type, file data and uploader are stored as given; every other column is the value given, or '' when that value is falsy |
| LocalStore.NewRowRequired | frontend/app/utils/database.ts:86-113 | The new row satisfies NOT NULL exactly when title, file type and file data are given |
| LocalStore.AppendValid | frontend/app/utils/database.ts:20-38 | Appending a complete row with a fresh id keeps the table's constraints |
| LocalStore.InsertDocument | frontend/app/utils/database.ts:86-113 | A missing required column violates NOT NULL; otherwise a duplicate id violates the primary key; otherwise the new row is appended |
| LocalStore.InsertDocumentValid | frontend/app/utils/database.ts:86-113 | A successful insert keeps the table's constraints |
| LocalStore.FindDoc | frontend/app/utils/database.ts:141-148 | A row is found exactly when some row has that id, and it is such a row |
| LocalStore.FindDocUnique | frontend/app/utils/database.ts:141-148 | With unique ids, the lookup returns the one row with that id |
| LocalStore.ListingSpec | frontend/app/utils/database.ts:115-139 | Every listed row is stored and matches each truthy filter. Rows come newest first. A positive limit bounds the count; without it, every matching row is listed; no left-out matching row is newer than a listed one. No row is listed more often than it is stored, and without a limit each matching row is listed exactly as often as it is stored |
| LocalStore.ListingCounts | frontend/app/utils/database.ts:115-139 | No row is listed more often than it is stored; without a limit each matching row is listed exactly as often as it is stored |
| LocalStore.SearchSpec | frontend/app/utils/database.ts:168-199 | Every result contains the query in one of the six columns and matches the filters. Results come newest first, at most 100 of them; all hits are returned when there are at most 100; no left-out hit is newer than a result. No row is returned more often than it is stored, and with at most 100 hits each hit is returned exactly as often as it is stored |
| LocalStore.Patched | frontend/app/utils/database.ts:150-160 | The columns named in the update take the new values, all others are kept, and `updated_at` becomes now |
| LocalStore.UpdateRows | frontend/app/utils/database.ts:150-160 | Ids and creation times are kept and unique ids stay unique; rows with another id are unchanged; a row with the id takes every patched column, keeps every other column and gets `updated_at` = now |
| LocalStore.ApplyUpdate | frontend/app/utils/database.ts:150-160 | An update with no columns is malformed SQL; clearing a required column of an existing row violates NOT NULL; otherwise the matching rows are patched and the constraints still hold |
| LocalStore.UpdateUnknownId | frontend/app/utils/database.ts:155-158 | Updating an id that no row has changes nothing |
| LocalStore.UpdateThenFind | frontend/app/utils/database.ts:141-160 | After an update, the lookup by id returns the patched row |
| LocalStore.TailIdsUnique | frontend/app/utils/database.ts:21 | Uniqueness of the primary key holds for the tail |
| LocalStore.ConsIdsUnique | frontend/app/utils/database.ts:21 | A row whose id differs from every id in the rest keeps the primary key unique |
| LocalStore.FilterIdsUnique | frontend/app/utils/database.ts:21 | Deleting rows keeps the primary key unique |
| LocalStore.FilterDocsValid | frontend/app/utils/database.ts:20-38 | Deleting rows keeps the table's constraints |
| LocalStore.RemoveIdSpec | frontend/app/utils/database.ts:162-166 | Exactly the rows with the id are deleted; an unknown id deletes nothing; the constraints still hold; and the id is no longer found |
| LocalStore.CategoryValues | frontend/app/utils/database.ts:206-211 | One value per row whose `auto_category` is neither NULL nor empty |
| LocalStore.CategoryValuesMember | frontend/app/utils/database.ts:209 | A value is listed exactly when some row has it as a non-empty `auto_category` |
| LocalStore.ByCategorySpec | frontend/app/utils/database.ts:206-211 | Groups have distinct keys; each group counts its rows and is non-empty; every row with a category is in a group; rows with an empty or NULL category are excluded; the counts add up to the rows that have a category |
| LocalStore.GroupsFromRows | frontend/app/utils/database.ts:206-211 | Every group comes from at least one row |
| LocalStore.RowsInGroups | frontend/app/utils/database.ts:206-211 | Every row with a category lands in a group |
| LocalStore.RecentOf | frontend/app/utils/database.ts:212-214 | Five entries, or one per row when there are fewer |
| LocalStore.RecentSpec | frontend/app/utils/database.ts:212-214 | Each recent entry describes a stored row, newest first, and no row newer than a listed one is left out. Counted with multiplicity, the entries are among the rows' (id, title, created_at) triples, and with at most five rows they are exactly those triples |
| LocalStore.Stats | frontend/app/utils/database.ts:201-222 | The totals are the row counts of the two tables, and at most five recent rows are reported |
| LocalStore.LocalDatabase.constructor | frontend/app/utils/database.ts:3 | The handle starts unset over the stored tables |
| LocalStore.LocalDatabase.InitDatabase | frontend/app/utils/database.ts:5-51 | A successful open sets the handle; a failed open rethrows and leaves it as it was; the tables are untouched |
| LocalStore.LocalDatabase.CreateUser | frontend/app/utils/database.ts:53-68 | Before init, it fails with "not initialized"; otherwise the users table becomes the insert's result, or stays as it was and the failure is returned |
| LocalStore.LocalDatabase.FindUserByUsername | frontend/app/utils/database.ts:70-77 | Fails before init; otherwise it returns the lookup |
| LocalStore.LocalDatabase.GetAllUsers | frontend/app/utils/database.ts:79-83 | Fails before init; otherwise it returns all users |
| LocalStore.LocalDatabase.CreateDocument | frontend/app/utils/database.ts:86-113 | Fails before init; otherwise the documents table becomes the insert's result, or stays as it was and the failure is returned |
| LocalStore.LocalDatabase.GetAllDocuments | frontend/app/utils/database.ts:115-139 | Fails before init; otherwise it returns the filtered, sorted and limited listing |
| LocalStore.LocalDatabase.GetDocumentById | frontend/app/utils/database.ts:141-148 | Fails before init; otherwise it returns the lookup |
| LocalStore.LocalDatabase.UpdateDocument | frontend/app/utils/database.ts:150-160 | Fails before init; otherwise the table becomes the update's result, or stays as it was and the failure is returned |
| LocalStore.LocalDatabase.DeleteDocument | frontend/app/utils/database.ts:162-166 | Fails before init; otherwise exactly the rows with the id are removed |
| LocalStore.LocalDatabase.SearchDocuments | frontend/app/utils/database.ts:168-199 | Fails before init; otherwise it returns the search results |
| LocalStore.LocalDatabase.GetStatistics | frontend/app/utils/database.ts:201-222 | Fails before init; otherwise it returns the statistics of the two tables |
| ReplyParser.LastStarting | backend/server.py:223-231 | The last line that starts with a label, or none when no line does |
| ReplyParser.LastStartingStep | backend/server.py:224-231 | Reading one more line moves the last match to it exactly when it starts with the label |
| ReplyParser.LabelsExclusive | backend/server.py:225-229 | No line starts with two of the three labels, so the order of the elif chain does not matter |
| ReplyParser.FieldValue | backend/server.py:226-230 | A field's value is the line with every occurrence of the label removed, then stripped: a slice of it with only Python whitespace around it, neither starting nor ending with whitespace |
| ReplyParser.StripEach | backend/server.py:231 | One result per piece: the piece with its leading and trailing Python whitespace removed and nothing else (a slice with only whitespace around it, neither starting nor ending with whitespace) |
| ReplyParser.StripEachChars | backend/server.py:231 | Stripping keeps every character property of the pieces |
| ReplyParser.SplitHasNoComma | backend/server.py:231 | No piece of a split on "،" contains "،" |
| ReplyParser.KeywordList | backend/server.py:230-231 | A keyword line gives one keyword per piece of its value cut at "،" (so at least one, possibly empty); keyword k is piece k stripped of Python whitespace, and none contains "،" |
| ReplyParser.KeywordPiecesJoin | backend/server.py:231 | The pieces of the value cut at "،", joined back with "،", give the value: nothing is lost or added |
| ReplyParser.ParseStep | backend/server.py:224-231 | One iteration sets exactly the field whose label the line starts with |
| ReplyParser.LineAt | backend/server.py:224-231 | The last labelled line of a longer prefix is either the new line or the previous one |
| ReplyParser.EmptyReply | backend/server.py:218-222 | An empty reply leaves the defaults: "أخرى", an empty summary and no keywords |
| ReplyParser.ParseLine | backend/server.py:225-231 | The loop body updates the field named by the line's label and keeps the others |
| ReplyParser.ParseLines | backend/server.py:223-231 | The loop over the lines computes the value of each field from the last line with its label |
| ReplyParser.ParseAnalysis | backend/server.py:217-231 | Parsing a reply gives the category, summary and keywords of its last labelled lines, or the defaults |
| ReplyParser.LaterLineWins | backend/server.py:224-226 | When several lines carry the category label, the last one wins |
| ReplyParser.ProcessDocumentWithAi | backend/server.py:154-247 | The text is cut to 5000 characters. A throwing extraction or model call gives the "خطأ في التصنيف" result; text shorter than 10 characters after stripping gives the "غير مصنف" result; otherwise the fields are the parsed reply |
| ServerStore.Code | backend/server.py:294-466 | The statuses the handlers raise (400, 401, 404, 500) are HTTP error codes, and exactly the server error is a 5xx |
| ServerStore.FindAccount | backend/server.py:292-305 | No account is found exactly when the username is not taken; otherwise it is an account with that username |
| ServerStore.FindAccountUnique | backend/server.py:305-307 | With unique usernames, the lookup returns the one account of that name |
| ServerStore.RegisterOutcome | backend/server.py:50-62 | A taken username gives 400. A null role fails the `User` validation: 500. Otherwise the account carries the given username, password and full name, the fresh id and time, and the role given or "موظف" |
| ServerStore.LoginOutcome | backend/server.py:302-318 | Every failure is 401, and an unknown username fails; a success is the profile of an account with that username and password |
| ServerStore.LoginSpec | backend/server.py:302-318 | With unique usernames, login succeeds exactly when an account has the username and password, and it returns that account's profile |
| ServerStore.RegisterKeepsUnique | backend/server.py:291-298 | A successful registration keeps usernames unique |
| ServerStore.RegisterThenLogin | backend/server.py:288-318 | After registering, logging in with the same credentials returns the new profile, and registering the username again gives 400 |
| ServerStore.ListDocuments | backend/server.py:351-366 | A negative limit is a server error; otherwise at most `limit` documents; with no limit given, a listing of at most 50 |
| ServerStore.ListDocumentsSpec | backend/server.py:351-366 | Each listed document is stored and matches the truthy filters; newest first; all matches when the limit (50 by default) allows; no left-out match is newer than a listed one. No document is listed more often than it is stored, and when the limit allows each match is listed exactly as often as it is stored |
| ServerStore.SmartSearchResults | backend/server.py:273-279 | At most 100 results, none carrying file data, one per selected document |
| ServerStore.SearchSelectionSpec | backend/server.py:250-279 | Each selected document matches the query (case-insensitive, in one of the six fields) and the filters; newest first; all hits when there are at most 100; no left-out hit is newer than a selected one. No document is selected more often than it is stored, and with at most 100 hits each hit is selected exactly as often as it is stored |
| ServerStore.SmartSearchSpec | backend/server.py:250-279 | Each result is a matching document with `file_data` dropped, and the results come newest first. Counted with multiplicity, the results are among the stored documents with `file_data` dropped |
| ServerStore.ProjectionKeeps | backend/server.py:274-277 | Dropping `file_data` keeps the match and the order |
| ServerStore.EmptyQueryIsListing | backend/server.py:250-279 | An empty query gives the same documents as listing with limit 100 |
| ServerStore.FindDoc | backend/server.py:368-402 | The index of the first document with the id, or none when no document has it |
| ServerStore.GetDocumentOutcome | backend/server.py:368-376 | 404 exactly when no document has the id; otherwise a stored document with that id |
| ServerStore.Apply | backend/server.py:386-393 | An update leaves the id, the file, the enrichment fields, the uploader and the creation time untouched, and sets `updated_at` to now |
| ServerStore.ApplySpec | backend/server.py:386-393 | For each of the seven fields (title, description, category, owner name, land type, location, notes), a given value replaces the old one and an absent (None) one keeps it. An empty update only touches `updated_at`. Applying the same update twice equals applying it once, up to the time |
| ServerStore.UpdateOutcome | backend/server.py:378-397 | 404 exactly when no document has the id; otherwise the first such document is updated in place and returned |
| ServerStore.UpdateSpec | backend/server.py:378-397 | Documents with other ids are unchanged, unique ids stay unique, and a get by the id returns the updated document |
| ServerStore.DeleteOutcome | backend/server.py:399-407 | 404 exactly when no document has the id; otherwise the first such document is removed |
| ServerStore.DeleteSpec | backend/server.py:399-407 | With unique ids: one document fewer, exactly the others are kept, and deleting or getting the id again gives 404 |
| ServerStore.RemoveAtSpec | backend/server.py:402 | Removing one position shifts the rest down, keeps unique ids, and drops only that id |
| ServerStore.RemoveAtKeeps | backend/server.py:402 | Removing one position keeps every other document |
| ServerStore.ByCategory | backend/server.py:445 | At most 100 groups are read |
| ServerStore.CategoryValuesMember | backend/server.py:443 | A value is grouped exactly when some document has it |
| ServerStore.ByCategorySpec | backend/server.py:441-453 | Groups have distinct keys, and each counts its documents and is non-empty. With at most 100 groups, every document's category is a key (null and "" included) and the counts add up to the number of documents |
| ServerStore.RecentOf | backend/server.py:447-461 | Five entries, or one per document when there are fewer |
| ServerStore.RecentSpec | backend/server.py:447-461 | Each recent entry describes a stored document, newest first, and no document newer than a listed one is left out. Counted with multiplicity, the entries are among the documents' (id, title, created_at) triples, and with at most five documents they are exactly those triples |
| ServerStore.Stats | backend/server.py:434-462 | The totals count the two collections; at most five recent documents and 100 groups |
| ServerStore.ServerDatabase.constructor | backend/server.py:26-29 | The collections start with the stored contents, and the invariant holds exactly when they hold no duplicate username or id |
| ServerStore.ServerDatabase.Register | backend/server.py:288-300 | Returns the registration outcome; on success the account is inserted, otherwise nothing changes; unique usernames stay unique |
| ServerStore.ServerDatabase.Login | backend/server.py:302-318 | Returns the login outcome |
| ServerStore.ServerDatabase.GetDocuments | backend/server.py:351-366 | Returns the listing |
| ServerStore.ServerDatabase.SmartSearch | backend/server.py:250-283 | Returns the search results |
| ServerStore.ServerDatabase.GetDocument | backend/server.py:368-376 | Returns the lookup outcome |
| ServerStore.ServerDatabase.UpdateDocument | backend/server.py:378-397 | On 404 nothing changes; otherwise the collection becomes the updated one and the updated document is returned; unique ids stay unique |
| ServerStore.ServerDatabase.DeleteDocument | backend/server.py:399-407 | On 404 nothing changes; otherwise the collection loses the document; unique ids stay unique |
| ServerStore.ServerDatabase.GetStatistics | backend/server.py:434-462 | Returns the statistics of the two collections |

## Left out

- OCR, the temporary image file, the PDF and Word readers, the language-model calls, the clock and the id generator are not modelled: they are foreign calls. Their outcomes are inputs, and `None` marks a call that threw.
- The PDF and Word readers (`extract_text_from_pdf`, `extract_text_from_docx`) are not modelled: they depend on external libraries. They catch their own errors and return "", so for those file types the extraction input is always present in practice.
- The prompt text, and the 2000-character cut of the text sent to the analysis model, are not modelled: they only affect the model's reply, which is an input.
- `extractTextFromImage`'s logging is not modelled: logging has no effect on results.
- LocalAI.Words: does not model tokens that name members of `Object.prototype` (such as `constructor` or `__proto__`), whose dictionary behaviour in JavaScript differs from that of plain keys.
- Lengths and the 147/150/5000-character cuts count characters, where JavaScript counts UTF-16 code units. Arabic text consists of single units, so they agree on it.
- Text.Lower folds ASCII letters only. JavaScript's `toLowerCase` and Mongo's `$options: 'i'` fold every cased script, and the keyword tables are Arabic plus lower-case English.
- The SQL `LIKE` and the Mongo `$regex` search are modelled as substring containment; `%`, `_` and regular-expression metacharacters in the query are not interpreted. Like SQLite's `LIKE`, the local search folds ASCII case and compares other letters as they are.
- LocalStore.LocalDatabase.InitDatabase: table creation (`CREATE TABLE IF NOT EXISTS`) is not modelled as a separate failure point; only the opening of the database succeeds or fails.
- LocalStore.ApplyUpdate: does not model update keys that are not columns, nor updates of `id`, `created_at` or `updated_at`. Patches range over the document columns, so such an update cannot be expressed.
- Rows and documents are kept in their natural (insertion) order, and every "first match" (`getFirstAsync`, `find_one`, `update_one`, `delete_one`) is the first in that order.
- Rows with equal `created_at` are ordered by a stable sort, and groups are ordered by first appearance. The databases do not promise either order; the model chooses one.
- ServerStore.ListDocuments: `limit` 0 is modelled as the Motor driver's `to_list(0)`, which returns an empty list, and a negative limit as the error `to_list` raises. The driver is not part of this model.
- Handlers are modelled one request at a time. `register` checks for the username with `find_one` and then calls `insert_one`, and no unique index exists, so two concurrent registrations can both store the same username; the model's uniqueness of usernames relies on requests not overlapping.
- ServerStore.SmartSearchResults: a Mongo failure, which the source turns into an empty list, is not modelled; all database failures are omitted. The `search_documents` route and `create_document` are not modelled: they fall outside the modelled handlers.
- ServerStore.ByCategory: the JSON serialisation of the groups is not modelled: documents without a category share the key `null`. The groups are modelled as pairs with distinct keys, which maps one-to-one onto the dictionary the source builds.
- Passwords are stored and compared as plain text because the source does so; hashing is not modelled.
- The state store (`frontend/app/store/authStore.ts`), the screens and the HTTP routing are not modelled: they are not part of the core.
- Behaviour of the code worth noting:
  - Keyword ties follow JavaScript's entry order, which puts array-index-like tokens first, and not pure first-appearance order.
  - The 150-character summary bound holds only for the sentence path; the two templates embed the title unbounded.
  - The local update accepts any column, the enrichment columns included.
  - The server's category statistics count documents without a category, whereas the local store excludes them.
