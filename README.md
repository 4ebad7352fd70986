# Quiz authoring and answer-key sanitizing, modelled in Dafny

This project models the quiz-authoring core of open-kahoot, a host-driven
multiplayer quiz game, and proves properties of that model. It covers three
parts of the source.

- **The host's quiz editor** (`src/app/host/page.tsx`). The host edits an
  ordered list of `Question` records: inserting templated questions,
  removing and reordering them, changing a question's type, growing,
  shrinking or removing options, and editing one option. Questions can be
  imported from a TSV file and exported to one. `createGame` cleans every
  question before sending it: blank options are dropped and the answer
  key (`correctAnswers`) is remapped onto the options that remain.
  `getJoinUrl` builds the link players open to join.
- **The answer-key sanitizer** (`src/lib/game/security.ts`).
  `sanitizeQuestion` and `sanitizeGame` strip `correctAnswers` from a
  question and from every question of a game before they go to a player.
- **The create gate** (`src/components/host-setup/HostQuizCreationScreen.tsx`).
  `isFormValid` enables the create button, and the download/create row is
  rendered only when at least one question exists.

Modules, one per component:

- `QuizTypes`: the records of `src/types/game.ts`.
- `Optional`: `undefined` fields, as `Option`.
- `JsText`: the JavaScript string primitives the code relies on: `trim`,
  ASCII `toLowerCase`, and the `||` fallback on strings.
- `SeqOps`: the array primitives: index filter, swap, splice, fill, `indexOf`.
- `Shuffle`: `shuffleArray`.
- `Authoring`: the editor operations.
- `SubmitCleanup`: the `createGame` cleanup.
- `TsvImport`: the row mapping of `parseTsvFile`.
- `TsvExport`: the row mapping of `downloadTSV`.
- `JoinLink`: `getJoinUrl`.
- `Security`: the sanitizer.
- `QuizForm`: the create gate.

Non-determinism and the environment are parameters:

- The `Math.random` draws of the shuffle are a sequence `js`, where `js[i]`
  lies in `[0, i]`.
- Each `uuidv4()` is an `id` argument.
- The configured app URL and `window.location.origin` are arguments of `GetJoinUrl`.
- The TSV import starts from the header cells and the non-empty data lines,
  already split into cells.

Operations the source runs step by step are methods proved against the
function that specifies them:

- `Shuffle.ShuffleArray` runs its swap loop over a fresh array.
- `Authoring.RetypeQuestion` has the two padding loops.
- `Authoring.MoveQuestionOnCopy` swaps in an array copy.
- `TsvImport.ParseRows` is the import loop.

## Model

| member | source | states |
|---|---|---|
| `SeqOps.WithoutIndex` | src/app/host/page.tsx:407 | filtering out index `k` drops exactly the element at `k` (prefix before it, suffix after it) and changes nothing when `k` is not a position |
| `SeqOps.WithoutIndexMultiset` | src/app/host/page.tsx:407 | dropping a position removes exactly that element from the multiset |
| `SeqOps.Swap` | src/app/host/page.tsx:417 | the destructuring swap exchanges the two positions and leaves every other position alone |
| `SeqOps.SwapPermutes` | src/app/host/page.tsx:69 | a swap only rearranges: the multiset is unchanged |
| `SeqOps.InsertAt` | src/app/host/page.tsx:230 | `splice(k, 0, x)` grows the list by one, puts `x` at `k`, keeps the prefix, and shifts the suffix up by one |
| `SeqOps.WithoutInserted` | src/app/host/page.tsx:230 | removing the position just inserted at gives the original list back |
| `SeqOps.Clamp` | src/app/host/page.tsx:229 | `Math.min(Math.max(i, lo), hi)` lies in `[lo, hi]`: `i` itself when inside, else the nearer bound |
| `SeqOps.Blanks` | src/app/host/page.tsx:218 | `Array(n).fill('')` has length `n` and every entry is `''` |
| `SeqOps.PadTo` | src/app/host/page.tsx:285-287 | padding keeps the list as a prefix, appends only `''`, and reaches `n` exactly when shorter |
| `SeqOps.IndexOf` | src/app/host/page.tsx:129 | `indexOf` is -1 exactly when absent, else the first position holding the value |
| `Shuffle.StepsDownPermutes` | src/app/host/page.tsx:67-70 | every run of the swap steps from `i` down to 1 is a permutation of its input |
| `Shuffle.FisherYatesPermutes` | src/app/host/page.tsx:65-72 | for any draws with `j <= i`, the shuffle has the input's length and multiset |
| `Shuffle.ShuffleArray` | src/app/host/page.tsx:65-72 | the swap loop over a fresh copy computes `FisherYates` of the input; the result is a permutation of the input; the input array is not modified |
| `JsText.TrimStart` | src/app/host/page.tsx:431 | the result is a suffix of the input, and it is empty or starts with a non-whitespace character |
| `JsText.TrimEnd` | src/app/host/page.tsx:431 | the result is a prefix of the input, and it is empty or ends with a non-whitespace character |
| `JsText.TrimStartRemovesSpace` | src/app/host/page.tsx:431 | everything `TrimStart` removes is whitespace |
| `JsText.TrimEndRemovesSpace` | src/app/host/page.tsx:431 | everything `TrimEnd` removes is whitespace |
| `JsText.Trim` | src/app/host/page.tsx:114-120 | `trim()` never lengthens a string, and its result has neither leading nor trailing whitespace |
| `JsText.TrimIsInfix` | src/app/host/page.tsx:114-120 | `trim()` keeps the infix between the leading and the trailing whitespace runs |
| `JsText.TrimInfixTail` | src/app/host/page.tsx:114-120 | trimming the end of a suffix gives an infix of the whole string followed only by whitespace |
| `JsText.TrimOfTrimmed` | src/app/host/page.tsx:114-120 | a trimmed string is unchanged by `trim()`, so `trim` is idempotent |
| `JsText.BlankIffTrimEmpty` | src/app/host/page.tsx:431 | `s.trim() !== ''` exactly when `s` has a non-whitespace character |
| `JsText.AllWhitespaceTrimStart` | src/app/host/page.tsx:431 | a whitespace-only string trims to `''` |
| `JsText.OrElse` | src/app/host/page.tsx:263-264 | `s \|\| fallback` is `s` unless `s` is `''`; it is `''` only when both are |
| `JsText.OrUndefined` | src/app/host/page.tsx:138-139 | `x \|\| undefined` keeps a non-empty string and turns `''` and `undefined` into `undefined` |
| `JsText.OptOrElse` | src/app/host/page.tsx:504-505 | `o \|\| ''` on an optional string: the string when present and non-empty, else the fallback |
| `JsText.NoUpperAt` | src/app/host/page.tsx:93 | a string without capitals has no ASCII capital at any position |
| `JsText.LowerAscii` | src/app/host/page.tsx:93 | `toLowerCase()` keeps the length and lowercases each ASCII capital |
| `JsText.LowerAsciiOfNoUpper` | src/app/host/page.tsx:93 | lowercasing a string without capitals changes nothing |
| `JsText.LowerAsciiHasNoUpper` | src/app/host/page.tsx:93 | lowercasing leaves no ASCII capital |
| `JsText.LowerAsciiFixed` | src/app/host/page.tsx:93 | a string with no capital at any position is its own lowercase |
| `Authoring.Template` | src/app/host/page.tsx:202-223 | boolean gives `['Verdadeiro','Falso']`, single 3 blanks, multiple 4 blanks; each has key `[0]` inside its options, empty text, time limit 30, and the chosen type |
| `Authoring.InsertQuestionAtIndex` | src/app/host/page.tsx:225-233 | the index is clamped into `[0, len]`; the list grows by exactly one; the template is at the clamped position; the other questions keep their order |
| `Authoring.RemoveQuestion` | src/app/host/page.tsx:406-408 | drops exactly the indexed question, keeping the order of the rest; out-of-range index leaves the list unchanged |
| `Authoring.RemoveUndoesInsert` | src/app/host/page.tsx:225-233 | removing the question just inserted (at the clamped index) gives the original list |
| `Authoring.MoveQuestion` | src/app/host/page.tsx:410-419 | swaps with the neighbour in the given direction, or leaves the list unchanged when there is none; the result is always a permutation |
| `Authoring.MoveQuestionOnCopy` | src/app/host/page.tsx:410-419 | the swap on an array copy, with its early return, computes `MoveQuestion` |
| `Authoring.MoveUpThenDown` | src/app/host/page.tsx:410-419 | moving a question up and then back down restores the list |
| `Authoring.UpdateOption` | src/app/host/page.tsx:322-326 | only the one option of the one question changes, to the new text; every other field, option and question is unchanged, so an in-range key stays in range |
| `Authoring.Retyped` | src/app/host/page.tsx:252-309 | unchanged type (a missing type counts as multiple): only the type is made explicit; boolean: 2 options with blanks replaced by 'Verdadeiro'/'Falso' and key `[min(first, 1)]`; multiple: exactly 4 options; single: at least 3; always exactly one correct index, in range unless the old first index was negative; non-boolean source keeps leading options verbatim; other fields kept |
| `Authoring.RetypeQuestion` | src/app/host/page.tsx:257-306 | the callback body with its two `while` padding loops computes `Retyped` |
| `Authoring.ChangeQuestionType` | src/app/host/page.tsx:252-309 | only the question at `questionIndex` changes, and it becomes `Retyped` of itself |
| `Authoring.RetypedIdempotent` | src/app/host/page.tsx:257-260 | changing to the same type a second time changes nothing more |
| `Authoring.SliceEnd` | src/app/host/page.tsx:349 | `slice(0, end)` keeps `end` elements when `0 <= end <= len`, counts from the back when `end` is negative, and never more than `len` |
| `Authoring.KeepBelow` | src/app/host/page.tsx:352-354 | every kept entry is below the new length and not -1, and comes from the key; every such key entry is kept |
| `Authoring.KeepBelowInOrder` | src/app/host/page.tsx:352-354 | the map/filter keeps the key's order: its result is a subsequence of the key |
| `Authoring.KeepBelowCounts` | src/app/host/page.tsx:352-354 | each entry below the new length (and not -1) is kept exactly as often as the key holds it, and nothing else is kept |
| `Authoring.ResizedOptions` | src/app/host/page.tsx:342-350 | growing pads with `''` and keeps the old options as a prefix; shrinking keeps a prefix |
| `Authoring.ResizedKey` | src/app/host/page.tsx:352-359 | keeps exactly the correct indices below the new length; falls back to `[0]` when that empties the key and the count is positive |
| `Authoring.WithOptionCount` | src/app/host/page.tsx:330-366 | boolean questions and an unchanged count are left untouched; otherwise options and key are resized; an in-range key stays in range |
| `Authoring.SetOptionCount` | src/app/host/page.tsx:328-369 | only the question at `questionIndex` changes, to `WithOptionCount` of itself |
| `Authoring.RemapAfterRemoval` | src/app/host/page.tsx:388-390 | every key entry other than the removed index survives, shifted down when above it; nothing else appears; the result is empty exactly when every entry was the removed index |
| `Authoring.WithoutOption` | src/app/host/page.tsx:373-401 | no-op for boolean questions, and for at most 2 options apart from making the type explicit; otherwise exactly the option at `optionIndex` goes; the key is remapped, or becomes `[0]` when the only correct option was removed |
| `Authoring.ShiftedNamesSameText` | src/app/host/page.tsx:385-390 | after the removal, the shifted position of any other index holds the same option text |
| `Authoring.WithoutOptionKeepsText` | src/app/host/page.tsx:385-394 | a real removal shrinks the options by exactly one, and each surviving correct index names the same option text as before |
| `Authoring.RemapStaysInRange` | src/app/host/page.tsx:388-390 | remapped indices stay inside the shortened option list |
| `Authoring.WithoutOptionKeyInRange` | src/app/host/page.tsx:385-394 | removing an option at a non-negative index keeps an in-range key in range |
| `Authoring.RemoveOption` | src/app/host/page.tsx:371-404 | only the question at `questionIndex` changes, to `WithoutOption` of itself |
| `SubmitCleanup.KeptFrom` | src/app/host/page.tsx:429-431 | the kept old indices, ascending; they are exactly the positions whose option is not blank |
| `SubmitCleanup.Pick` | src/app/host/page.tsx:433 | mapping items to their text gives the option at each kept index, in order |
| `SubmitCleanup.CleanOptions` | src/app/host/page.tsx:429-433 | every surviving option is non-blank and is the option at its old index |
| `SubmitCleanup.KeptFromIsFilter` | src/app/host/page.tsx:429-433 | picking the kept indices from a position on equals filtering the non-blank options from that position on |
| `SubmitCleanup.CleanOptionsIsFilter` | src/app/host/page.tsx:429-433 | the new options are exactly the in-order subsequence of options whose `trim()` is non-empty |
| `SubmitCleanup.RemapKey` | src/app/host/page.tsx:436-438 | every new entry lies in the new options and stands for an old entry; every old entry that named a kept option is remapped; the key becomes empty exactly when no entry named a kept option |
| `SubmitCleanup.CleanQuestion` | src/app/host/page.tsx:428-445 | only options and key change; the options are cleaned; the new key always lies inside the new options and is no longer than the old |
| `SubmitCleanup.CleanQuestionKey` | src/app/host/page.tsx:436-438 | a correct index that named a kept option is remapped to the position of the same text; every new index names the text of an old correct index; entries on blank options are dropped with no fallback, so the key is empty exactly when all named blanks |
| `SubmitCleanup.CreateGame` | src/app/host/page.tsx:421-447 | nothing is sent for an empty list; otherwise title 'Jogo de Quiz', the settings, and every question cleaned, in order |
| `SubmitCleanup.KeptFromAll` | src/app/host/page.tsx:429-431 | with no blank option, every position is kept |
| `SubmitCleanup.RemapKeyIdentity` | src/app/host/page.tsx:436-438 | when every position is kept, an in-range key is remapped to itself |
| `SubmitCleanup.PickIdentity` | src/app/host/page.tsx:433 | picking every position in order gives the options back |
| `SubmitCleanup.CleanOptionsKeepsAll` | src/app/host/page.tsx:429-433 | with no blank option, the options are sent unchanged |
| `SubmitCleanup.CleanQuestionKeepsCleanQuestion` | src/app/host/page.tsx:428-445 | a question with no blank option and an in-range key is sent unchanged |
| `JoinLink.BaseUrl` | src/app/host/page.tsx:472 | the configured URL when non-empty, else the window origin, else `''` |
| `JoinLink.NormalizedBase` | src/app/host/page.tsx:477 | exactly one trailing slash is removed when present |
| `JoinLink.JoinUrl` | src/app/host/page.tsx:469-479 | `''` without a game; `/join?pin=<pin>` without a base; otherwise the normalized base followed by `/join?pin=<pin>` |
| `JoinLink.GetJoinUrl` | src/app/host/page.tsx:469-479 | `''` exactly without a game; with one, the configured URL (one trailing slash removed) if set, else the origin if non-empty, else nothing, followed by `/join?pin=<pin>` |
| `JoinLink.PinOfJoinUrl` | src/app/host/page.tsx:478 | the game's PIN is read back from the link |
| `JoinLink.JoinUrlInjective` | src/app/host/page.tsx:478 | for one base, different PINs never give the same link |
| `JoinLink.NoDoubledSlash` | src/app/host/page.tsx:477-478 | unless the base ends in `//`, no slash precedes the join path |
| `Security.SanitizeQuestion` | src/lib/game/security.ts:7-11 | the result has every field of the question except `correctAnswers`, with the values unchanged |
| `Security.SanitizeLosesOnlyKey` | src/lib/game/security.ts:9-10 | putting the original key back onto the sanitized question gives the original question |
| `Security.SanitizeQuestionIgnoresKey` | src/lib/game/security.ts:9-10 | two questions that differ only in `correctAnswers` sanitize to the same value (non-interference) |
| `Security.SanitizeAll` | src/lib/game/security.ts:20 | `questions.map(sanitizeQuestion)`: same count, same order, question `i` sanitized |
| `Security.SanitizeGame` | src/lib/game/security.ts:17-22 | every non-question field unchanged (players, settings, phase, status, `currentQuestionIndex`, times, `answerHistory`); question count and order kept; question `i` is `sanitizeQuestion` of question `i` |
| `Security.SanitizeGameIgnoresKeys` | src/lib/game/security.ts:17-21 | two games that differ only in their questions' keys sanitize to the same value |
| `Security.SanitizeIgnoresProgress` | src/lib/game/security.ts:17-21 | the stripped questions are the same whatever the phase, status and `currentQuestionIndex` |
| `Security.SanitizeGameLosesOnlyKeys` | src/lib/game/security.ts:17-21 | the game is recovered from its sanitized form plus its keys |
| `QuizForm.FormValidIff` | src/components/host-setup/HostQuizCreationScreen.tsx:49 | the form is valid exactly when every question has non-empty text and every option is non-empty |
| `QuizForm.IsIncomplete` | src/components/host-setup/HostQuizCreationScreen.tsx:49 | a question is incomplete exactly when its text is empty or one of its options is `''` |
| `QuizForm.IsFormValid` | src/components/host-setup/HostQuizCreationScreen.tsx:49 | the form is valid exactly when no question of the list is incomplete: every text and every option non-empty |
| `QuizForm.OneBadQuestionInvalidates` | src/components/host-setup/HostQuizCreationScreen.tsx:49 | one incomplete question makes the whole form invalid |
| `QuizForm.ValidityIgnoresOrder` | src/components/host-setup/HostQuizCreationScreen.tsx:49 | lists with the same multiset of questions have the same validity |
| `QuizForm.MoveKeepsValidity` | src/components/host-setup/HostQuizCreationScreen.tsx:49 | moving a question never changes validity |
| `QuizForm.InsertedTemplateBlocks` | src/components/host-setup/HostQuizCreationScreen.tsx:49 | a freshly inserted question has no text, so the form is invalid until it is filled in |
| `SubmitCleanup.KeptFromShorter` | src/app/host/page.tsx:429-431 | a blank option means fewer positions are kept than there are options |
| `SubmitCleanup.KeptFromAtMost` | src/app/host/page.tsx:429-431 | no more positions are kept than there are options |
| `QuizForm.WhitespaceOptionPassesButIsDropped` | src/components/host-setup/HostQuizCreationScreen.tsx:49 | the emptiness test is exact: a whitespace-only option passes the check, and the trim filter then drops it |
| `QuizForm.EnabledCreateSends` | src/components/host-setup/HostQuizCreationScreen.tsx:75-94 | when the row is rendered and the button enabled, pressing create sends a game with one question per question |
| `QuizForm.SpaceKeyPassesGate` | src/components/host-setup/HostQuizCreationScreen.tsx:49 | counterexample to "a question that passes the gate keeps a correct answer": one whose only correct option is `' '` passes the gate and is sent with an empty key |
| `TsvImport.LowerCharKeepsSpace` | src/app/host/page.tsx:93 | lowercasing never turns whitespace into non-whitespace or back |
| `TsvImport.NormalizeHeader` | src/app/host/page.tsx:93 | the normalized name has no surrounding whitespace |
| `TsvImport.NormalizeHeaderShape` | src/app/host/page.tsx:93 | a normalized header has no ASCII capital |
| `TsvImport.LowerAsciiTrimmed` | src/app/host/page.tsx:93 | lowercasing a trimmed string keeps it trimmed |
| `TsvImport.NormalizeHeaderBlank` | src/app/host/page.tsx:93 | a header normalizes to `''` exactly when it is made only of whitespace |
| `TsvImport.NormalizeHeaderIdempotent` | src/app/host/page.tsx:93 | normalizing a normalized header changes nothing |
| `TsvImport.NormalFormFixed` | src/app/host/page.tsx:93 | a trimmed name without capitals is its own normal form |
| `TsvImport.ColumnNormalized` | src/app/host/page.tsx:102 | each column name the import reads is already in normal form |
| `TsvImport.ColumnsDistinct` | src/app/host/page.tsx:102 | no two column names coincide |
| `TsvImport.RecordAt` | src/app/host/page.tsx:96 | in a row record, a header with no later namesake maps to its own cell |
| `TsvImport.RecordOfNames` | src/app/host/page.tsx:96 | with headers normalizing to distinct names, each name maps to its own cell |
| `TsvImport.RecordLacks` | src/app/host/page.tsx:103 | a name no header normalizes to is absent from the record |
| `TsvImport.MissingFrom` | src/app/host/page.tsx:106 | exactly the required columns not among the headers; empty exactly when all are present |
| `TsvImport.MissingFromInOrder` | src/app/host/page.tsx:106 | the missing columns are reported in the listed order: a subsequence of the list |
| `TsvImport.MissingFromCounts` | src/app/host/page.tsx:106 | each absent column is reported as often as it is listed, and no present one is |
| `TsvImport.FieldsOfTrimmed` | src/app/host/page.tsx:114-120 | every field the loop reads is trimmed |
| `TsvImport.Answers` | src/app/host/page.tsx:127 | four non-empty answers, the correct one first |
| `TsvImport.ShuffledQuestion` | src/app/host/page.tsx:126-140 | the produced question keeps the line's text and has four options and one correct index; its full contents are `ShuffledContents` |
| `TsvImport.PermutedElements` | src/app/host/page.tsx:128 | every element of a rearrangement occurs in the original |
| `TsvImport.ShuffledContents` | src/app/host/page.tsx:126-140 | the produced question has the line's text and a permutation of its answers; `options[correctAnswers[0]]` is the correct answer; type 'multiple', time limit 30, and empty explanation/image become undefined |
| `TsvImport.ShuffledWellImported` | src/app/host/page.tsx:126-140 | trimmed non-empty fields give a question with 4 trimmed non-empty options and one in-range correct index |
| `TsvImport.RowQuestion` | src/app/host/page.tsx:114-140 | a line gives a question exactly when its five required fields are present and non-empty after trimming |
| `TsvImport.RowQuestionContents` | src/app/host/page.tsx:114-140 | a complete line gives its text and a permutation of `[correct, wrong1, wrong2, wrong3]`, with `options[correctAnswers[0]] == correct` |
| `TsvImport.RowQuestionWellImported` | src/app/host/page.tsx:114-140 | a complete line always gives a well-formed four-option question |
| `TsvImport.TableFields` | src/app/host/page.tsx:96 | one field record per data line, read through the normalized headers |
| `TsvImport.ImportRows` | src/app/host/page.tsx:113-141 | never more questions than lines |
| `TsvImport.ImportTable` | src/app/host/page.tsx:98-143 | zero data rows is an error; otherwise a missing required column is an error listing the missing columns; otherwise questions, at most one per line |
| `TsvImport.ImportRowsWellImported` | src/app/host/page.tsx:113-141 | every question produced by the loop is well formed |
| `TsvImport.ImportedWellFormed` | src/app/host/page.tsx:98-143 | every imported question is well formed |
| `TsvImport.ImportRowsCount` | src/app/host/page.tsx:122-123 | exactly one question per complete line; incomplete lines are skipped |
| `TsvImport.ImportRowsLength` | src/app/host/page.tsx:113-141 | when every line is complete, there is one question per line |
| `TsvImport.ImportRowsAt` | src/app/host/page.tsx:113-141 | when every line is complete, question `k` comes from line `k` |
| `TsvImport.ImportRowsAllComplete` | src/app/host/page.tsx:113-141 | when every line is complete, all lines are kept, in file order |
| `TsvImport.ParseRow` | src/app/host/page.tsx:114-140 | the loop body, reading the seven trimmed fields, computes `RowQuestion` |
| `TsvImport.ParseFields` | src/app/host/page.tsx:122-140 | the skip test, the array shuffle and `indexOf` compute `RowQuestion` |
| `TsvImport.ParseNext` | src/app/host/page.tsx:113-141 | one loop turn appends exactly the next line's question, if any |
| `TsvImport.ParseRows` | src/app/host/page.tsx:113-141 | the loop over the records computes `ImportRows` of all lines |
| `TsvImport.ParseTsv` | src/app/host/page.tsx:98-143 | the two file checks and the loop compute `ImportTable` |
| `TsvExport.ExportRow` | src/app/host/page.tsx:490-507 | seven cells for every question: the text; the option at the first correct index (0 for an empty key), or `''` when that is not a position; the other options in order (every option when the index is not a position), padded with `''` to three; the explanation and the image, `''` when absent |
| `TsvExport.CorrectCell` | src/app/host/page.tsx:495-500 | the option at the first correct index, or `''` when that index is not a position (`\|\| ''` never changes a string) |
| `TsvExport.WrongCell` | src/app/host/page.tsx:501-503 | the `k`-th wrong option, or `''` past the end |
| `TsvExport.DownloadTsv` | src/app/host/page.tsx:481-510 | nothing for an empty list; otherwise the fixed header line and one row per question, in order |
| `TsvExport.MarkedHeaderNormalizes` | src/app/host/page.tsx:513 | the byte order mark before the first header is removed by `trim`, so it reads as `question` |
| `TsvExport.ExportHeaderNormalizes` | src/app/host/page.tsx:489 | every exported header reads back as its column name |
| `TsvExport.ExportRecord` | src/app/host/page.tsx:489 | the record of an exported line maps every column name to its cell |
| `TsvExport.ExportedFields` | src/app/host/page.tsx:490-507 | the import reads an exported line as its seven trimmed cells |
| `TsvExport.ExportHasColumns` | src/app/host/page.tsx:489 | an export always has every required column |
| `TsvExport.OptionalRoundTrip` | src/app/host/page.tsx:504-505 | a trimmed explanation or image survives export and import (absent stays absent) |
| `TsvExport.WrongsOfExportable` | src/app/host/page.tsx:496 | for an exportable question, the wrong options are three non-empty trimmed strings |
| `TsvExport.ExportableFields` | src/app/host/page.tsx:495-503 | `correct` is `options[correctAnswers[0] \|\| 0]` and wrong1..3 are the remaining options in order |
| `TsvExport.ReadBackAnswers` | src/app/host/page.tsx:495-503 | the answers read back are a permutation of the options, with the first correct option first |
| `TsvExport.FieldsRoundTrip` | src/app/host/page.tsx:126-140 | such a line re-imports with the same text, a permutation of the options, the same correct text, and the trimmed explanation |
| `TsvExport.RowRoundTrip` | src/app/host/page.tsx:490-507 | a 4-option question with non-empty trimmed options re-imports with the same text, a permutation of its options and the same correct text |
| `TsvExport.BlankCellSkipped` | src/app/host/page.tsx:122-124 | an exported line with an empty `correct` or `wrong3` cell is skipped on import |
| `TsvExport.ShortQuestionSkipped` | src/app/host/page.tsx:499-503 | a question with fewer than 4 options exports a blank cell and is skipped on re-import |
| `TsvExport.ExportReadsBack` | src/app/host/page.tsx:490-507 | every exported line of exportable questions reads back as its question |
| `TsvExport.ReadBackComplete` | src/app/host/page.tsx:122-124 | such lines are never skipped |
| `TsvExport.ImportReadBackAt` | src/app/host/page.tsx:113-141 | line `k` re-imports as question `k` |
| `TsvExport.ImportReadBack` | src/app/host/page.tsx:113-141 | such lines re-import one for one, in order |
| `TsvExport.ExportThenImport` | src/app/host/page.tsx:481-510 | exporting exportable questions and importing the file gives one question per question, in order: same text, a permutation of the options, the same correct text |

## Left out

- Socket wiring is not modelled: the `playerJoined`/`playerLeft`/`gameUpdated` handlers, `socket.emit`, and the connection singleton. `CreateGame` returns the arguments it would send.
- File decoding is not modelled (`arrayBuffer`, encoding detection, `iconv`). Neither is tokenizing with `Papa.parse`/`Papa.unparse`. The import starts from header cells and data lines already split; lines Papa skips as empty do not appear. Quoting is assumed to round-trip, so export followed by import is modelled on cells.
- `uuidv4`, `Math.random`, and the `Date`-based file name are parameters or are left out.
- The Blob, the download link, `alert`, and the `appConfig`/`window` lookups are not modelled. `GetJoinUrl` takes the configured URL and the origin as arguments.
- `handleAppendTSV` is not modelled: its `splice` of imported questions at an index, and the async file input plumbing.
- `handleFileImport` is not modelled: it replaces the list with the import result and resets the input.
- `updateQuestion` is not modelled: it is a generic update keyed by field name. Its `type` case is `ChangeQuestionType`.
- `addQuestion`, the type picker and the AI generation handler are not modelled: they are UI state, an HTTP call, and the same shuffle mapping as the import.
- Authoring.UpdateOption: `updateOption` writes into the question's existing `options` array. That array is shared with the previous state, and the model does not capture the aliasing. It returns the new list as a value.
- Authoring.UpdateOption, Authoring.MoveQuestion: both require an existing question index; the page only calls them for rendered questions. For an out-of-range question index, `updateOption` throws a `TypeError` when it reads `options` of `undefined` and writes nothing. `moveQuestion` at an index outside the list swaps an `undefined` slot into the list or extends it.
- Authoring.WithoutOptionKeyInRange requires a non-negative option index. With `optionIndex = -1` the source shifts every correct index down (`idx > -1`), so index 0 becomes -1. The editor never passes a negative index.
- Authoring.Retyped states that the key is in range only when the old first index is non-negative. With a negative first index the source keeps it negative (`Math.min`).
- JsText.LowerAscii lowercases ASCII letters only. Full Unicode case mapping of `toLowerCase` is not modelled; the column names are ASCII.
- Rendering is not modelled; the create gate is reduced to the two predicates `ActionRowShown` and `CreateEnabled`.
- Security.SanitizeQuestionIgnoresKey, Security.SanitizeGameIgnoresKeys: the non-interference holds over the fields of the `Question` record only. `sanitizeQuestion` removes only `correctAnswers` and forwards every other property (security.ts:9). `updateQuestion` can set any named field (page.tsx:318), the question editor sets a `correctAnswer` field, and `createGame` forwards it with `...q`. Such an extra key property would reach players, and the closed record cannot represent it.
- The live-game server is not part of this model: phases, timers, scoring, reconnection. Only its sanitizer is modelled.
- `QuestionEditor`'s shuffle and radio logic are not modelled. They use a `correctAnswer` field that the `Question` record does not have.
