# Message pipeline of the chat-message API, in Dafny

This project models the message-processing core of a small chat-message
service. Incoming messages pass through four components:

- A **content filter** (`FiltroContenido`) detects forbidden words as whole
  words, ignoring case, and masks each occurrence with asterisks.
- A **processor** (`ProcesadorMensajes`) rejects blank content, filters it,
  and attaches metadata: word count, character count and processing time.
- A **store** (`RepositorioMensajes`) keeps the processed messages as flat
  rows keyed by message id. It lists one session's messages, optionally of
  one sender, sorted by timestamp text and paged with `LIMIT`/`OFFSET`.
- A **service** (`ServicioMensajes`) runs the processor, stores the flattened
  result, and lists a session with the metadata nested again. It raises
  "session not found" only for an empty first page.

Errors belong to a closed taxonomy (`ErrorAPI` and its four subclasses),
each kind with a fixed code and HTTP status.

The model follows the source's own form:

- The filter, the store and the service are classes. Their methods are
  proved against specification functions.
  - `Filter.Detect` and `Filter.Mask` keep the source's loops over the
    word list.
  - `MessageStore` holds the table as a `seq<Row>` that `Save` reassigns.
  - `MessageService.GetSessionMessages` keeps the loop that nests each row.
- The processor and the error taxonomy are pure functions and datatypes.

Files, one module each:

| file | module | what it holds |
|---|---|---|
| `wrappers.dfy` | `Wrappers` | `Option` |
| `errors.dfy` | `Errors` | the error taxonomy, `Result` and `Outcome` |
| `ascii.dfy` | `Ascii` | word characters and ASCII lower-casing |
| `whole_word.dfy` | `WholeWord` | the regular expression `\bw\b` as predicates over positions |
| `masking.dfy` | `Masking` | `re.sub` of `\bw\b`, proved equal to a pointwise reference masking |
| `content_filter.dfy` | `ContentFilter` | the filter class and its specification functions |
| `whitespace.dfy` | `Whitespace` | `str.strip()`, `str.split()` and the count of whitespace-separated runs |
| `processor.dfy` | `Processor` | the processing pipeline |
| `ordering.dfy` | `Ordering` | SQLite's BINARY text order, which `ORDER BY timestamp` uses |
| `store.dfy` | `Store` | the table, its constraints, the paged query, and the repository class |
| `service.dfy` | `Service` | flatten/nest, and the service class |

Key modelling choices:

- **Masking.** It is specified twice: as the regular-expression engine
  performs it, and as a pointwise reference. In the engine's version, the
  leftmost match is replaced first and the scan resumes after it
  (`SubFrom`). In the reference (`RefMask`), a character becomes `*` exactly
  when a whole-word occurrence of some forbidden word in the original text
  covers it. `Masking.MaskAllIsRef` proves the two equal. The length and
  "unchanged when nothing occurs" are proved on the scan itself. The stars,
  no detection afterwards, idempotence and independence of word order are
  proved from the reference.
- **Word count.** `len(content.split())` is the length of `Split`.
  `Whitespace.SplitCountsRuns` proves it equal to the number of maximal
  non-whitespace runs.
- **The paged query.** SQL leaves the order of rows with equal timestamps
  open. The query's contract is therefore existential (`IsPage`): the page
  is the window of *some* timestamp-sorted permutation of the selected
  rows.

## Model

| member | source | states |
|---|---|---|
| Errors.NewApiError | app/excepciones/excepciones_api.py:4-9 | the error keeps the code, message, details and HTTP status it is given |
| Errors.DefaultStatusIs400 | app/excepciones/excepciones_api.py:4 | the HTTP status defaults to 400 |
| Errors.Record | app/excepciones/excepciones_api.py:12-49 | the status is 400, 422, 404 or 409 exactly for InvalidFormat, InappropriateContent, SessionNotFound and DuplicateMessage; the kind and its argument can be recovered from the code and details, so the details carry the session or message id |
| Ascii.IsWordChar | app/servicios/filtro_contenido.py:18 | the class `\w` that `\b` consults: ASCII letters, digits and `_`; `Ascii.Lower` keeps it and `WholeWord.MatchIsWordChars` shows matches consist of it |
| Ascii.Lower | app/servicios/filtro_contenido.py:15 | lower-casing leaves no capital letter, keeps word characters as word characters, and changes only `A`-`Z`, each by +32 |
| Ascii.LowerStr | app/servicios/filtro_contenido.py:15 | `texto.lower()` keeps the length and lowers each character |
| WholeWord.BoundaryAt | app/servicios/filtro_contenido.py:18 | `\b` at a position: word-ness differs on its two sides, the text edges counting as non-word; `WholeWord.MatchesShareRun` and `WholeWord.EmbeddedNotDetected` state its effect |
| WholeWord.LiteralAt | app/servicios/filtro_contenido.py:18-19 | `\bw\b` matches case-sensitively at a position: the characters equal the word and both ends are boundaries; `WholeWord.LiteralInFoldedIsMatch` ties it to `MatchAt` on lowered text |
| WholeWord.Search | app/servicios/filtro_contenido.py:18-19 | `re.search` succeeds when the literal pattern matches at some position; `WholeWord.SearchFoldedIsOccurs` proves the search on lowered text equivalent to `Occurs` |
| WholeWord.FoldedEqualAt | app/servicios/filtro_contenido.py:27 | the text's characters from a position equal the word's up to ASCII case, the `re.IGNORECASE` comparison; `WholeWord.OccursIgnoresCase` follows from it |
| WholeWord.MatchAt | app/servicios/filtro_contenido.py:27 | the `\bw\b` pattern with `re.IGNORECASE` matches at a position; `WholeWord.LiteralInFoldedIsMatch` and `WholeWord.MatchesShareRun` are its properties |
| WholeWord.WordAtLower | app/servicios/filtro_contenido.py:15 | lowering the text does not move any `\b`: every position keeps its word-ness |
| WholeWord.FoldedSliceIff | app/servicios/filtro_contenido.py:15-19 | the lowered text holds the lowered word at a position exactly when the text equals the word there up to case |
| WholeWord.LiteralInFoldedIsMatch | app/servicios/filtro_contenido.py:15-19 | the lowered word matches `\bw\b` at position i of the lowered text exactly when the word matches there ignoring case |
| WholeWord.SearchFoldedIsOccurs | app/servicios/filtro_contenido.py:15-19 | the search in the lowered text succeeds exactly when the word occurs as a whole word, ignoring case |
| WholeWord.OccursIgnoresCase | app/servicios/filtro_contenido.py:18-19 | texts and words that lower to the same strings have the same occurrences |
| WholeWord.MatchIsWordChars | app/servicios/filtro_contenido.py:18 | every character of a whole-word occurrence is a word character |
| WholeWord.MatchesShareRun | app/servicios/filtro_contenido.py:27-28 | two overlapping whole-word occurrences start at the same position and have the same length |
| WholeWord.UpperCaseDetected | tests/unitarias/test_filtro_contenido.py:28-30 | "idiota" occurs in "Eres IDIOTA" |
| WholeWord.EmbeddedNotDetected | app/servicios/filtro_contenido.py:18 | a word inside a longer word is not an occurrence: "anal" does not occur in "analisis" |
| Masking.Stars | app/servicios/filtro_contenido.py:28 | `"*" * n` is n asterisks |
| Masking.SubFrom | app/servicios/filtro_contenido.py:28 | the scan from a position yields a text as long as what remains; `Masking.SubFromIsPointwise` proves it masks exactly the covered characters from there on |
| Masking.SubFromNoMatch | app/servicios/filtro_contenido.py:28 | where the pattern matches nowhere, the substitution copies the text |
| Masking.MaskWord | app/servicios/filtro_contenido.py:27-28 | one pass keeps the length and leaves a text without occurrences unchanged |
| Masking.MaskAll | app/servicios/filtro_contenido.py:23-29 | the masking loop keeps the length and leaves a text with no occurrence of any word unchanged |
| Masking.SubFromIsPointwise | app/servicios/filtro_contenido.py:27-28 | the leftmost-first scan turns a character into `*` exactly when a whole-word occurrence covers it |
| Masking.MatchStep | app/servicios/filtro_contenido.py:28 | a match at the scan position is replaced, and the scan continues pointwise after it |
| Masking.SkipStep | app/servicios/filtro_contenido.py:28 | a non-matching position is copied, and the scan continues pointwise after it |
| Masking.NotInsideAfterMatch | app/servicios/filtro_contenido.py:28 | no occurrence straddles the position where the scan resumes after a match |
| Masking.MaskWordIsRef | app/servicios/filtro_contenido.py:27-28 | one pass equals reference masking by that word |
| Masking.CoveredIsWordChar | app/servicios/filtro_contenido.py:27-28 | only word characters are ever masked |
| Masking.MatchInRefMask | app/servicios/filtro_contenido.py:26-28 | an occurrence in the masked text was an occurrence in the original text, with none of its characters masked |
| Masking.MatchSurvivesRefMask | app/servicios/filtro_contenido.py:26-28 | an occurrence that masking left partly untouched survives masking whole |
| Masking.RefMaskCompose | app/servicios/filtro_contenido.py:26-28 | masking one more word after a list equals reference masking by the longer list |
| Masking.MaskAllIsRef | app/servicios/filtro_contenido.py:25-29 | the masking loop equals reference masking by the whole list |
| Masking.OccurrenceBecomesStars | app/servicios/filtro_contenido.py:27-28 | each whole-word occurrence becomes `len(word)` asterisks |
| Masking.MaskOnlyCovered | app/servicios/filtro_contenido.py:27-28 | each character is either kept or turned into `*`, and only word characters are turned |
| Masking.NoneOccursAfterMask | app/servicios/filtro_contenido.py:26-28 | no forbidden word occurs in the masked text |
| Masking.MaskIdempotent | app/servicios/filtro_contenido.py:23-29 | masking twice is masking once |
| Masking.MaskOrderIrrelevant | app/servicios/filtro_contenido.py:26-28 | two lists with the same words mask every text the same way |
| ContentFilter.DefaultWordsAreWords | app/configuracion.py:14-17 | the default list `PALABRAS_PROHIBIDAS` has ten entries, each non-empty and made of word characters |
| ContentFilter.EffectiveWords | app/servicios/filtro_contenido.py:9-11 | a missing or empty list falls back to the default list; any other list is kept; the result is never empty |
| ContentFilter.Detected | app/servicios/filtro_contenido.py:18-19 | the search of the lowered word in the lowered text succeeds exactly when the word occurs as a whole word, ignoring case |
| ContentFilter.Matched | app/servicios/filtro_contenido.py:16-20 | at most one entry per forbidden word |
| ContentFilter.MatchedMembers | app/servicios/filtro_contenido.py:15-20 | a word is reported exactly when it is in the list and occurs in the text |
| ContentFilter.MatchedAppend | app/servicios/filtro_contenido.py:17-20 | the report follows the list's order: for two concatenated lists, it is the report for the first followed by the report for the second |
| ContentFilter.Inspect | app/servicios/filtro_contenido.py:21 | the flag holds exactly when the reported list is non-empty, and a word is reported exactly when it is in the list and occurs in the text |
| ContentFilter.FlagIffSomeOccurs | app/servicios/filtro_contenido.py:21 | the flag is raised exactly when some forbidden word occurs |
| ContentFilter.CleanSentenceNotFlagged | tests/unitarias/test_filtro_contenido.py:8-11 | "Hola, buen dia" yields `(False, [])` |
| ContentFilter.MaskedNotFlagged | app/servicios/filtro_contenido.py:23-29 | masked text yields `(False, [])` under the same list |
| ContentFilter.Filter.constructor | app/servicios/filtro_contenido.py:9-11 | the filter's list is the given list, or the default list when none or an empty one is given |
| ContentFilter.Filter.Detect | app/servicios/filtro_contenido.py:13-21 | the loop returns the specification's pair: the flag holds exactly when the list is non-empty, and a word is listed exactly when it is forbidden and occurs |
| ContentFilter.Filter.Mask | app/servicios/filtro_contenido.py:23-29 | the loop returns the masked text: same length, no forbidden word left, unchanged when nothing occurs |
| Whitespace.IsSpace | app/servicios/procesador_mensajes.py:29 | the characters `str.isspace()` accepts, which `strip()` and `split()` drop; `Whitespace.Strip` and `Whitespace.SplitCountsRuns` are stated over it |
| Whitespace.TrimLeft | app/servicios/procesador_mensajes.py:29 | `lstrip` returns a suffix that is empty or starts with a non-space character |
| Whitespace.TrimRight | app/servicios/procesador_mensajes.py:29 | `rstrip` returns a prefix that is empty or ends with a non-space character |
| Whitespace.TrimLeftDropsOnlySpace | app/servicios/procesador_mensajes.py:29 | everything `lstrip` drops is whitespace |
| Whitespace.TrimRightDropsOnlySpace | app/servicios/procesador_mensajes.py:29 | everything `rstrip` drops is whitespace |
| Whitespace.TrimLeftEmptyIffAllSpace | app/servicios/procesador_mensajes.py:29 | `lstrip` yields nothing exactly for all-whitespace text |
| Whitespace.TrimRightKeepsHead | app/servicios/procesador_mensajes.py:29 | `rstrip` keeps a text that starts with a non-space character |
| Whitespace.Strip | app/servicios/procesador_mensajes.py:29 | `strip()` is empty exactly when the text is all whitespace, and otherwise starts and ends with a non-whitespace character |
| Whitespace.Split | app/servicios/procesador_mensajes.py:43 | `split()` yields no token exactly for all-whitespace text; `Whitespace.SplitCountsRuns` gives the number of tokens |
| Whitespace.RunLen | app/servicios/procesador_mensajes.py:43 | the leading run is maximal: non-space characters up to the end or the first whitespace |
| Whitespace.SplitCountsRuns | app/servicios/procesador_mensajes.py:43 | `len(s.split())` is the number of maximal non-whitespace runs |
| Whitespace.RunStartsTrimLeft | app/servicios/procesador_mensajes.py:43 | leading whitespace does not change the run count |
| Whitespace.RunStartsSkipRun | app/servicios/procesador_mensajes.py:43 | no new run starts inside a run |
| Whitespace.AfterRunNoStart | app/servicios/procesador_mensajes.py:43 | after a run has ended, counting resumes as at the start of a text |
| Whitespace.RunStartsSamePattern | app/servicios/procesador_mensajes.py:43 | texts with whitespace in the same places have the same run count |
| Whitespace.NoRunsIffAllSpace | app/servicios/procesador_mensajes.py:43 | the run count is 0 exactly for all-whitespace text |
| Whitespace.RunStartsAppend | app/servicios/procesador_mensajes.py:43 | the run count of a concatenation is the first part's count plus the second part's, counted from where the first part ends |
| Whitespace.OneRun | app/servicios/procesador_mensajes.py:43 | a non-empty text without whitespace is one run |
| Processor.ValidateFormat | app/servicios/procesador_mensajes.py:28-32 | InvalidFormat, with the fixed details, is raised exactly for all-whitespace content |
| Processor.FilterContent | app/servicios/procesador_mensajes.py:34-39 | the result is the masked content (the content itself when nothing is detected): same length, no forbidden word left |
| Processor.GenerateMetadata | app/servicios/procesador_mensajes.py:41-46 | the word count is the number of whitespace-separated runs, the character count is the length, and `processed_at` is the clock reading |
| Processor.Process | app/servicios/procesador_mensajes.py:14-26 | fails exactly on blank content, with InvalidFormat; otherwise copies the ids, timestamp and sender, masks the content, and computes the metadata on the masked content |
| Processor.MaskKeepsWordCount | app/servicios/procesador_mensajes.py:16-17 | masking does not change the word count |
| Processor.AcceptedHasWords | app/servicios/procesador_mensajes.py:14-17 | an accepted message has as many words as its raw content, and at least one |
| Processor.OnlyTimestampDependsOnClock | app/servicios/procesador_mensajes.py:41-46 | runs at two clock readings differ at most in `processed_at` |
| Processor.SchemaValid | app/esquemas/esquema_mensaje.py:9-13 | the schema's field constraints: ids of at least one character, content of 1 to 5000 characters, sender `user` or `system`; it is the precondition of `Process` and `CreateMessage` |
| Processor.HolaMundoIsClean | tests/unitarias/test_procesador_mensajes.py:26-30 | no fixture word occurs in "Hola mundo" |
| Processor.CleanMessageUnchanged | tests/unitarias/test_procesador_mensajes.py:26-30 | "Hola mundo" passes through the filter unchanged |
| Processor.HolaMundoTwoWords | tests/unitarias/test_servicio_mensajes.py:37-42 | "Hola mundo" counts 2 words |
| Processor.BlankMessageRejected | tests/unitarias/test_procesador_mensajes.py:49-52 | content `"   "` is rejected with InvalidFormat |
| Processor.FixtureWordsAreWords | tests/unitarias/test_procesador_mensajes.py:12 | the fixture's words are non-empty and made of word characters |
| Processor.IdiotaAtEight | tests/unitarias/test_procesador_mensajes.py:54-58 | "idiota" is a whole word at position 8 of "Eres un idiota total" |
| Processor.InsultOnlyAtEight | tests/unitarias/test_procesador_mensajes.py:54-58 | no other whole-word occurrence of a fixture word is in "Eres un idiota total" |
| Processor.InsultCovered | tests/unitarias/test_procesador_mensajes.py:54-58 | exactly the characters 8 to 13 of "Eres un idiota total" are covered by an occurrence |
| Processor.InsultMaskedAtEight | tests/unitarias/test_procesador_mensajes.py:54-58 | masking replaces exactly characters 8 to 13 by six asterisks |
| Processor.StarredInsult | tests/unitarias/test_procesador_mensajes.py:54-58 | that replacement spells "Eres un ****** total" |
| Processor.NoIdiotaIn | tests/unitarias/test_procesador_mensajes.py:54-58 | "Eres un ****** total" does not contain "idiota" as a substring |
| Processor.InsultMasked | tests/unitarias/test_procesador_mensajes.py:54-58 | "Eres un idiota total" is masked to exactly "Eres un ****** total", which does not contain "idiota" even as a substring |
| Ordering.LexLe | app/repositorios/repositorio_mensajes.py:51 | the text order of `ORDER BY timestamp`, character by character with a prefix first; `LexLeRefl`, `LexLeTotal`, `LexLeTrans` and `LexLeAntisym` prove it a total order |
| Ordering.LexLeRefl | app/repositorios/repositorio_mensajes.py:51 | every timestamp sorts no later than itself |
| Ordering.LexLeTotal | app/repositorios/repositorio_mensajes.py:51 | any two timestamps are comparable |
| Ordering.LexLeTrans | app/repositorios/repositorio_mensajes.py:51 | the order is transitive |
| Ordering.LexLeAntisym | app/repositorios/repositorio_mensajes.py:51 | timestamps that sort no later than each other are equal |
| Ordering.LexLeSharedPrefix | app/repositorios/repositorio_mensajes.py:51 | a shared prefix does not change the comparison |
| Ordering.OffsetStampSortsByText | app/repositorios/repositorio_mensajes.py:51 | "…T10:00:00+05:00" sorts after "…T06:00:00Z" although it is the earlier instant |
| Ordering.FifteenAfterFourteen | tests/unitarias/test_repositorio_mensajes.py:75-84 | 15:00 sorts after 14:00 on the same day |
| Store.FilterBySender | app/repositorios/repositorio_mensajes.py:37 | `if remitente:`: the sender filter applies only when a sender is given and non-empty; `Store.WhereClauseSelectsWanted` and `Store.EmptySenderIsNoFilter` state its effect |
| Store.MatchingCounts | app/repositorios/repositorio_mensajes.py:34-45 | each wanted row is selected as often as it is stored, and other rows not at all |
| Store.MatchingAllWanted | app/repositorios/repositorio_mensajes.py:34-45 | when every row is wanted, all rows are selected, in order |
| Store.MatchingNoneWanted | app/repositorios/repositorio_mensajes.py:34-45 | when no row is wanted, nothing is selected |
| Store.TableValid | app/repositorios/base_datos.py:7-11 | the table's constraints: message ids are pairwise distinct (the primary key) and every sender is `user` or `system` (the check); `MessageStore.Save` keeps it |
| Store.Holds | app/repositorios/repositorio_mensajes.py:34-41 | one `WHERE` condition (`session_id = ?` or `sender = ?`, the datatype `Condition`) holds of a row |
| Store.HoldsAll | app/repositorios/repositorio_mensajes.py:34-41 | the conditions joined with `" AND "` all hold of a row; `Store.WhereClauseSelectsWanted` proves the built list holds exactly for the wanted rows |
| Store.Select | app/repositorios/repositorio_mensajes.py:41-50 | the `WHERE` scan returns no more rows than the table, each of them a table row satisfying every condition; `Store.SelectIsMatching` proves it returns exactly the wanted rows in table order |
| Store.WhereClauseSelectsWanted | app/repositorios/repositorio_mensajes.py:34-41 | the built `WHERE` clause holds exactly for the session's rows, and also restricts to the sender when the sender is truthy |
| Store.SelectIsMatching | app/repositorios/repositorio_mensajes.py:44-50 | that clause selects exactly the wanted rows, in table order |
| Store.Insert | app/repositorios/repositorio_mensajes.py:51 | inserting into a sorted sequence keeps it sorted and adds exactly the row |
| Store.SortByTime | app/repositorios/repositorio_mensajes.py:51 | `ORDER BY timestamp ASC` yields a sorted permutation |
| Store.Window | app/repositorios/repositorio_mensajes.py:52-54 | `LIMIT/OFFSET` yields `max(0, min(limit, n - offset))` rows, taken in order from position `offset` |
| Store.PageFacts | app/repositorios/repositorio_mensajes.py:48-56 | a page is sorted, holds only selected rows, and has `max(0, min(limit, total - offset))` rows |
| Store.TwoRowsOrdered | app/repositorios/repositorio_mensajes.py:51 | the only sorted order of two rows with distinct timestamps puts the earlier first |
| Store.MessageStore.constructor | app/repositorios/base_datos.py:6-15 | a new table is empty and valid |
| Store.MessageStore.Save | app/repositorios/repositorio_mensajes.py:13-24 | appends the row exactly when its id is new and its sender passes the check; otherwise raises DuplicateMessage with the id and leaves the table as it was; the table stays valid |
| Store.MessageStore.FetchBySession | app/repositorios/repositorio_mensajes.py:26-58 | the total is the number of wanted rows, whatever the paging; the page is a window of a sorted permutation of them, with the stated length; the table is only read |
| Store.UnknownSessionIsEmpty | tests/unitarias/test_repositorio_mensajes.py:44-47 | a session with no rows yields no rows and a total of 0 |
| Store.EmptySenderIsNoFilter | app/repositorios/repositorio_mensajes.py:37 | an empty sender filters nothing |
| Store.SaveTwoThenFetch | tests/unitarias/test_repositorio_mensajes.py:75-84 | two rows of one session with distinct ids, saved into a fresh table later stamp first, are listed as a page of two with the earlier first, and a total of 2 |
| Store.OutOfOrderSaves | tests/unitarias/test_repositorio_mensajes.py:75-84 | rows saved as 15:00 then 14:00 are listed as msg-001 then msg-002 |
| Store.PageOfTwo | app/repositorios/repositorio_mensajes.py:48-56 | a first page of two rows with distinct timestamps lists the earlier one first |
| Service.Flatten | app/servicios/servicio_mensajes.py:20-29 | nesting the flattened row gives back the processed message |
| Service.Nest | app/servicios/servicio_mensajes.py:53-64 | rebuilds the processed message from a row, metadata nested again; `Service.NestThenFlatten` and `Service.Flatten` prove it the inverse of flattening |
| Service.NestThenFlatten | app/servicios/servicio_mensajes.py:53-64 | flattening a nested row gives back the row |
| Service.FlattenAll | app/servicios/servicio_mensajes.py:51-64 | a listing flattens item by item, keeping length and order |
| Service.MessageService.constructor | app/servicios/servicio_mensajes.py:12-14 | the service uses the given repository, and the processor's word list goes through the filter's fallback: the default list when none or an empty one is given |
| Service.MessageService.CreateMessage | app/servicios/servicio_mensajes.py:16-31 | a processing error propagates with the table unchanged; a duplicate id raises DuplicateMessage with the table unchanged; otherwise the processor's result is returned and its flattened row appended |
| Service.MessageService.GetSessionMessages | app/servicios/servicio_mensajes.py:33-66 | SessionNotFound exactly when the total is 0 and the offset is 0; otherwise the nested rows of a page of the wanted rows, and the total; an empty session past offset 0 yields an empty list |
| Service.CreateThenFetch | tests/unitarias/test_servicio_mensajes.py:37-42 | creating a message in an empty session and then listing the session returns that message, with its metadata, and a total of 1 |

## Left out

- The HTTP routes, response envelopes and application wiring are not part of this model. The routes bound `limit` to 1..100 and `offset` to at least 0; here `limit` and `offset` are `nat`, so a negative value cannot be expressed.
- The FastAPI error handlers are not part of this model. They render an error as `{status, error: {code, message, details}}` from the fields that `Errors.Record` computes.
- The input schema is not part of this model. Its guarantees are the precondition `SchemaValid`: non-empty ids, content of 1 to 5000 characters, and sender `user` or `system`. The ISO-8601 check of `timestamp` is left out: timestamps are opaque strings, compared as text.
- The clock is the parameter `now` of `Process` and `CreateMessage`; the ISO formatting of the reading is not modelled.
- The configuration singleton is replaced by the constant `DefaultWords`, the list of `PALABRAS_PROHIBIDAS`.
- The database connection, the WAL pragma, durability, transactions and concurrent writers are left out. The table is a sequence in memory, changed by one caller at a time, and `Save` is atomic by construction. Of the schema, only the primary key on `message_id` and the `sender` check are kept.
- Unicode is not modelled. Python's `\w` and `str.lower()` are reduced to ASCII letters, digits and `_`, with ASCII case folding. For non-ASCII text, Python's detection and masking can differ from the model.
- Forbidden words are assumed non-empty and made of word characters (`AllWords`), as the default list is. For words with other characters, the masking passes could interact and the agreement with the reference masking is not claimed.
- Store.MessageStore.FetchBySession: the order among rows with equal timestamps is left open, as SQL leaves it; the contract states only sortedness and being a permutation of the selected rows. The query has no tie-break column.
- Store.MessageStore.FetchBySession: the sender filter applies only when the sender is truthy, so an empty string means no filter (`if remitente:`).
- Store.MessageStore.Save: a failure of the `sender` check is reported as DuplicateMessage, as the code's catch of every integrity error does.
- InappropriateContent is defined but never raised. `Process` and `CreateMessage` state that their only errors are InvalidFormat and DuplicateMessage.
- Whitespace.Split: its contract states when there is no token, and `Whitespace.SplitCountsRuns` gives the number of tokens. That each token is exactly one run is not stated.
