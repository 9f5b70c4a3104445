# Learning Hub — a verified model of its client and API logic

Learning Hub is a Next.js study application. Students upload PDF course
material, take quizzes generated from it, ask for summaries and turn a PDF
into a two-voice podcast through the PlayNote service. This project models
the parts of the application that hold decisions of their own, and proves
what they promise:

- **Quiz answer checking and taking** (`quiz.dfy`, `quiz_taking.dfy`):
  - the answer normaliser and the lenient comparison with its negation and
    stop-word rules;
  - the answer handler that records responses, advances questions,
    computes the score and writes the quiz row and the attempt row.
- **PlayNote request** (`podcast.dfy`): the hand-built
  `multipart/form-data` body, which is a class whose body grows by appends.
  Around it sit:
  - the request headers, including the UTF-8 `Content-Length`;
  - the mapping from the service's reply to the route's JSON response.
- **File selection, upload and deletion** (`files.dfy`, `materials.dfy`):
  - the PDF and 5 MiB filter;
  - storage paths;
  - the upload loop that stops at the first failure;
  - the delete that goes to storage first and then the table.
- **Summarize page** (`summarize.dfy`): its handlers.
- **Navigation** (`ai_assistant.dfy`, `materials_list.dfy`):
  - the assistant's declared events and their routes, and the embed guard;
  - the sidebar's pathname-prefix routing.

`text.dfy` holds the JavaScript string primitives the rules are built
from: `\s`, `trim`, `\w`, ASCII `toLowerCase`, `replace(/\s+/g, c)`
and decimal rendering. `seqs.dfy` holds `Array.prototype.filter`, and
`wrappers.dfy` holds `Option` and `Result`.

Hosted services are never called. Supabase auth, storage and tables, the
PlayNote `fetch` and the browser's `fetch` are all modelled the same way:
each becomes an input that says how the call went, and each call made is
recorded as an effect or a request value. `Math.random` and `Date.now` are
parameters too. Toasts and `router.push` become returned values.

## Model

| member | source | states |
|---|---|---|
| Text.ToLower | app/components/quiz/quiz.tsx:29 | same length; every ASCII capital is lowered and every other character kept |
| Text.ReplaceWhitespaceRuns | app/components/quiz/quiz.tsx:31 | no longer than the input; every character is the separator or non-whitespace; no two whitespace characters are adjacent; the first character is kept or replaced |
| Text.ReplaceKeepsOtherChars | app/components/quiz/quiz.tsx:31 | only whitespace is replaced: the characters that are neither whitespace nor the separator are those of the input, in order |
| Text.ReplaceIgnoresRunLength | app/components/quiz/quiz.tsx:31 | the result does not depend on a whitespace run's length or characters: `a w1 b` and `a w2 b` give the same result |
| Text.ReplaceSplitsAtRun | app/materials/page.tsx:86 | a whole whitespace run between non-whitespace neighbours becomes exactly one separator, with the text on either side replaced independently: `a w b` gives `R(a)`, the separator, `R(b)` |
| Text.TrimStart | app/components/quiz/quiz.tsx:32 | the result is a suffix of the input, starts with non-whitespace, and only whitespace was removed |
| Text.TrimEnd | app/components/quiz/quiz.tsx:32 | the result is a prefix of the input, ends with non-whitespace, and only whitespace was removed |
| Text.NatToString | app/api/generate-podcast/route.ts:36 | at least one decimal digit, no leading zero except for `0` itself |
| Text.ParseNatToString | app/api/generate-podcast/route.ts:36 | reading the rendered digits back gives the number |
| Text.NatToStringInjective | app/materials/page.tsx:85-86 | two numbers render alike exactly when they are equal |
| Quiz.StripPunctuation | app/components/quiz/quiz.tsx:30 | no character of the punctuation class survives |
| Quiz.NormalizeAnswer | app/components/quiz/quiz.tsx:26-33 | the result has no ASCII capital and no stripped punctuation; its only whitespace is single spaces; it has no leading or trailing space |
| Quiz.NormalizedIsFixedPoint | app/components/quiz/quiz.tsx:26-33 | a string already in normal form is left unchanged |
| Quiz.NormalizeIdempotent | app/components/quiz/quiz.tsx:26-33 | normalising twice gives the same as normalising once |
| Quiz.NormalizeIgnoresPadding | app/components/quiz/quiz.tsx:26-33 | surrounding whitespace does not change the normal form |
| Quiz.MatchAtSpec | app/components/quiz/quiz.tsx:43 | the alternative found is the first in list order that matches as a whole word at that position; `None` exactly when none does |
| Quiz.SearchFrom | app/components/quiz/quiz.tsx:43-44 | true exactly when some alternative occurs as a whole word at or after the position (`RegExp.test`) |
| Quiz.NoNegationWithoutLateT | app/components/quiz/quiz.tsx:43-44 | a string with no `t` from its third character on contains no negation word |
| Quiz.NegationWordDetected | app/components/quiz/quiz.tsx:43-44 | any negation word between two spaces is found, wherever it stands |
| Quiz.OneWordNegation | app/components/quiz/quiz.tsx:43-44 | a single word carries a negation exactly when it is one of the negation words |
| Quiz.TwoWordNegation | app/components/quiz/quiz.tsx:43-44 | `w x` whose first word is no negation word carries a negation exactly when `x` is one |
| Quiz.AddedNegationIsWrong | app/components/quiz/quiz.tsx:42-47 | an answer whose normal form has a negation word is wrong against one whose normal form has none |
| Quiz.DeleteWholeWords | app/components/quiz/quiz.tsx:51 | the global replace never lengthens the text |
| Quiz.DeleteKeepsNonWordChars | app/components/quiz/quiz.tsx:51 | only word characters are deleted: the non-word characters of the result are those of the input, in order |
| Quiz.DeleteWithoutMatchIsIdentity | app/components/quiz/quiz.tsx:51 | without a whole-word occurrence the text is unchanged |
| Quiz.MatchAtWordRun | app/components/quiz/quiz.tsx:51 | at the start of a maximal run of word characters an alternative matches exactly when the whole run is one of them |
| Quiz.StopWordsAreWords | app/components/quiz/quiz.tsx:51 | every stop word is a non-empty string of word characters |
| Quiz.DeleteInteriorWord | app/components/quiz/quiz.tsx:51 | in `x w y` with only `w` listed, the replace leaves `x`, both spaces and `y` |
| Quiz.InteriorStopWordLeavesDoubleSpace | app/components/quiz/quiz.tsx:50-52 | cleaning `x w y` with a stop word `w` gives `x  y` with two spaces |
| Quiz.InteriorStopWordIsNotIgnored | app/components/quiz/quiz.tsx:49-57 | so `x w y` and `x y` are not equal after cleaning: an inner stop word is not ignored |
| Quiz.LeadingStopWordIgnored | app/components/quiz/quiz.tsx:42-57 | a leading stop word is removed completely, `w y` and `y` agree on negation, and so `w y` matches `y` |
| Quiz.LeadingStopWordAnswer | app/components/quiz/quiz.tsx:26-57 | for a normalised answer, `compareAnswers("w y", "y")` with a stop word `w` holds ("the answer" matches "answer") |
| Quiz.InteriorStopWordMakesAnswerWrong | app/components/quiz/quiz.tsx:26-57 | for a normalised answer, `compareAnswers("x w y", "x y")` with a stop word `w` is false |
| Quiz.SameNormalFormIsCorrect | app/components/quiz/quiz.tsx:35-40 | answers with equal normal forms are graded correct |
| Quiz.CompareReflexive | app/components/quiz/quiz.tsx:35-40 | every answer is graded correct against itself |
| Quiz.CompareSymmetric | app/components/quiz/quiz.tsx:35-57 | swapping the user's and the correct answer never changes the grade |
| Quiz.NegationMismatchIsWrong | app/components/quiz/quiz.tsx:42-47 | when exactly one side has a negation word, the answer is wrong |
| Quiz.SameNegationComparesCleaned | app/components/quiz/quiz.tsx:49-57 | when both sides agree on negation, the grade is correct exactly when the normal forms or the cleaned forms are equal |
| Quiz.IgnoresCaseAndPunctuation | app/components/quiz/quiz.tsx:26-40 | answers equal up to ASCII case and the stripped punctuation are graded correct |
| Quiz.IgnoresSurroundingWhitespace | app/components/quiz/quiz.tsx:26-40 | whitespace around an answer does not change its grade |
| Quiz.NormalizeIgnoresRunLength | app/components/quiz/quiz.tsx:26-33 | a whitespace run inside an answer normalises alike whatever its length and characters |
| Quiz.IgnoresInnerWhitespace | app/components/quiz/quiz.tsx:26-40 | answers that differ only in the whitespace run between two parts are graded correct |
| QuizTaking.ResponseFor | app/components/quiz/quiz.tsx:68-75 | the response records the index, the question, the selected and the correct answer, and it is correct exactly when the answer check accepts it |
| QuizTaking.CountCorrect | app/components/quiz/quiz.tsx:84 | never more than the number of responses |
| QuizTaking.ScoreIsRoundedPercentage | app/components/quiz/quiz.tsx:85 | the score is `100·K/N` rounded half up: `2N·r ≤ 200K + N < 2N·(r + 1)` |
| QuizTaking.ScoreInRange | app/components/quiz/quiz.tsx:84-85 | with no more correct answers than questions, the score is between 0 and 100 |
| QuizTaking.Answer | app/components/quiz/quiz.tsx:67-126 | the question on screen stays a valid index |
| QuizTaking.Finish | app/components/quiz/quiz.tsx:80-125 | the new responses are stored whatever the services answer, and the question stays a valid index |
| QuizTaking.AnswerMovesForwardByOne | app/components/quiz/quiz.tsx:80-81 | before the last question an answer moves on by exactly one and writes nothing; on the last question it does not move |
| QuizTaking.AnswerAppendsOneResponse | app/components/quiz/quiz.tsx:68-78 | every answer keeps the earlier responses and appends exactly one, describing the question on screen |
| QuizTaking.ResultsOnlyAfterBothWrites | app/components/quiz/quiz.tsx:87-124 | results are shown exactly when a user is signed in and both the score update and the attempt insert succeed; with no user the outcome is the login redirect |
| QuizTaking.ScoreWrittenEverywhere | app/components/quiz/quiz.tsx:84-116 | the score in the quiz update and in the attempt is the rounded percentage over all stored responses, and the attempt carries those responses |
| QuizTaking.Run | app/components/quiz/quiz.tsx:67-126 | a sequence of answers keeps the question index valid |
| QuizTaking.InOrder | app/components/quiz/quiz.tsx:69-77 | one response per answer, with consecutive question indices and the answers in order |
| QuizTaking.RunRecordsAnswersInOrder | app/components/quiz/quiz.tsx:67-81 | answering question by question records exactly the answers in order, and the index advances by one per answer until the last question |
| QuizTaking.FirstCompletionScoreInRange | app/components/quiz/quiz.tsx:80-124 | finishing on the first try with both writes succeeding shows results, stores one response per question and a score from 0 to 100 |
| QuizTaking.RetryAfterFailedSaveDoublesScore | app/components/quiz/quiz.tsx:77-106 | as written: after a failed score update a second correct click on a one-question quiz stores score 200 |
| QuizTaking.AnswerFixed | app/components/quiz/quiz.tsx:77-78 | the corrected handler keeps the question index valid |
| QuizTaking.FixedAnswerKeepsScoreInRange | app/components/quiz/quiz.tsx:77-116 | with the correction there is one response per question answered, and every score written is between 0 and 100 |
| QuizTaking.FixedRetryKeepsScore | app/components/quiz/quiz.tsx:77-124 | with the correction the same retry stores score 100 |
| QuizTaking.AnswerKeepsInvariant | app/components/quiz/quiz.tsx:67-126 | each answer keeps the session invariant: responses describe their questions and are graded, and results need a response for every question |
| QuizTaking.QuizSession.constructor | app/components/quiz/quiz.tsx:61-63 | the component starts at question 0 with no responses and no results |
| QuizTaking.QuizSession.HandleAnswer | app/components/quiz/quiz.tsx:67-126 | the handler's new state and outcome are those of `Answer` graded by `compareAnswers`, and the invariant holds |
| QuizTaking.QuizSession.StoreAndFinish | app/components/quiz/quiz.tsx:77-125 | after the new responses are stored, the component's state and outcome are those of `Finish`: advance, login redirect, failed save, or results |
| Podcast.FormBuilder.constructor | app/api/generate-podcast/route.ts:12 | the body starts empty |
| Podcast.FormBuilder.AddFormField | app/api/generate-podcast/route.ts:14-18 | the three appends add exactly one part (delimiter line, disposition header, blank line, value line), and the body stays the parts of the fields added |
| Podcast.FormBuilder.Close | app/api/generate-podcast/route.ts:27 | the close delimiter is appended and nothing else changes |
| Podcast.BuildPodcastBody | app/api/generate-podcast/route.ts:11-27 | the boundary is `----FormBoundary` plus the random suffix, and the body is the six fields in order followed by the close delimiter |
| Podcast.BoundaryHasPrefix | app/api/generate-podcast/route.ts:11 | every boundary begins with `----FormBoundary` |
| Podcast.BodySplitsAtField | app/api/generate-podcast/route.ts:14-27 | the body splits around any field into the earlier parts, that field's part and the later parts, then the close delimiter |
| Podcast.PartOpensWithDelimiter | app/api/generate-podcast/route.ts:15-17 | every part opens with `--` + boundary + CRLF |
| Podcast.ExtractSourceUrl | app/api/generate-podcast/route.ts:20 | a decoded value, placed between the fixed text before and after it, rebuilds the body exactly |
| Podcast.BodyAroundSourceUrl | app/api/generate-podcast/route.ts:20-27 | the `pdfUrl` appears verbatim and unescaped as the first part's value, between text that does not depend on it |
| Podcast.ExtractBuiltSourceUrl | app/api/generate-podcast/route.ts:20-27 | round trip: decoding the built body gives back any `pdfUrl`, whatever characters it holds |
| Podcast.BodyDeterminesSourceUrl | app/api/generate-podcast/route.ts:20-27 | different URLs give different bodies |
| Podcast.EncodeChar | app/api/generate-podcast/route.ts:36 | the UTF-8 table: 1, 2, 3 or 4 bytes by code-point range, an ASCII byte stands for itself, lead bytes in 0xC2..0xDF, 0xE0..0xEF or 0xF0..0xF4 by length, continuation bytes in 0x80..0xBF |
| Podcast.DecodeEncodeChar | app/api/generate-podcast/route.ts:36 | decoding a character's UTF-8 bytes gives its code point back |
| Podcast.Utf8Encode | app/api/generate-podcast/route.ts:36 | at least one byte per character |
| Podcast.Utf8EncodeConcat | app/api/generate-podcast/route.ts:36 | encoding distributes over concatenation, so the body's byte length is the sum over its pieces |
| Podcast.AsciiByteLength | app/api/generate-podcast/route.ts:36 | an ASCII string has one byte per character |
| Podcast.HeadersDescribeBody | app/api/generate-podcast/route.ts:29-39 | the request is a POST to the PlayNote URL carrying the body; Content-Type names the body's boundary; Content-Length reads back as its UTF-8 byte length |
| Podcast.CopyMembers | app/api/generate-podcast/route.ts:50-61 | only listed keys whose member is present appear |
| Podcast.CopyMembersSpec | app/api/generate-podcast/route.ts:50-61 | each response key is present exactly when its reply member is, and holds that member's value |
| Podcast.SuccessCopiesReply | app/api/generate-podcast/route.ts:47-61 | an OK reply gives status 200 with `success: true`, `status: 'generating'`, `playNoteId` from `id`, the other seven members unchanged and no other keys |
| Podcast.FailuresGive500 | app/api/generate-podcast/route.ts:41-68 | a non-OK reply or any thrown error gives status 500 with exactly `error: 'Failed to process request'` and `details` set to the error's message |
| Podcast.Post | app/api/generate-podcast/route.ts:5-70 | a request body that does not parse sends nothing and gives the 500 response; otherwise the PlayNote request for the built body is sent and its reply mapped |
| Files.SelectFiles | app/materials/page.tsx:60-70 | only acceptable selected files are kept, and the notice is shown exactly when some file was dropped |
| Files.KeepsExactlyAcceptable | app/materials/page.tsx:62-64 | a file is kept exactly when it was selected, is `application/pdf` and is at most 5·1024·1024 bytes |
| Files.KeepsOrder | app/materials/page.tsx:62-64 | the kept files keep their selection order |
| Files.SingleFile | app/materials/page.tsx:62-68 | a single file is kept alone or dropped with the notice |
| Files.NoticeIffRejected | app/materials/page.tsx:66-68 | the notice is shown exactly when some selected file is rejected; without it the selection is kept whole |
| Files.SizeLimitIsInclusive | app/materials/page.tsx:63 | a PDF of exactly 5 MiB is accepted and one byte more is rejected |
| Materials.UniqueFileNameShape | app/materials/page.tsx:85-86 | the file name is the timestamp's digits, `-`, and the name with each whitespace run replaced by `-`; it contains no whitespace |
| Materials.StoragePathShape | app/materials/page.tsx:85-87 | the path is the user id, `/`, and that file name |
| Materials.UniqueFileNameDeterminesTimestamp | app/materials/page.tsx:84-86 | equal file names mean equal timestamps and names that agree up to whitespace runs |
| Materials.StoragePathsDifferAcrossTimestamps | app/materials/page.tsx:84-87 | one user's uploads in different milliseconds never share a storage path |
| Materials.PathsDifferAcrossTimestamps | app/materials/page.tsx:84-87 | two files of one upload whose timestamps differ get different paths, whatever their names |
| Materials.UploadOne | app/materials/page.tsx:84-119 | one loop pass uploads the file at its path and, only if that succeeds, inserts its row; it fails where the body throws |
| Materials.UploadAll | app/materials/page.tsx:83-120 | the loop makes exactly the calls of the specification `Upload` and reports success as it does |
| Materials.UploadOkIffAllSucceed | app/materials/page.tsx:83-122 | the run succeeds exactly when every file's upload and insert succeed |
| Materials.SuccessfulRunStoresEveryFile | app/materials/page.tsx:83-120 | a successful run uploads each file in order, each followed by its row, which holds the file's name, type `pdf`, its size, the public URL and the storage path |
| Materials.RunStopsAtFirstFailure | app/materials/page.tsx:83-127 | the run stops at the first failing file: earlier files are uploaded and inserted, and nothing is undone or touched after it |
| Materials.RunInsertsFollowStores | app/materials/page.tsx:89-114 | every insert comes right after the upload of the path its row names |
| Materials.WithoutId | app/materials/page.tsx:156 | no remaining entry has the deleted id, and every remaining one was listed |
| Materials.WithoutIdKeepsOthers | app/materials/page.tsx:156 | exactly the entries with another id remain, unchanged |
| Materials.WithoutIdKeepsOrder | app/materials/page.tsx:156 | the remaining entries keep their order |
| Materials.WithoutAbsentId | app/materials/page.tsx:156 | a list without that id is left as it is |
| Materials.MaterialsPage.constructor | app/materials/page.tsx:28-30 | no files, no materials, not uploading |
| Materials.MaterialsPage.HandleFileChange | app/materials/page.tsx:60-71 | the selection becomes the acceptable files, replacing the previous one; the notice is returned; nothing else changes |
| Materials.MaterialsPage.UploadMaterials | app/materials/page.tsx:73-131 | with no user nothing is called and `isUploading` stays true; otherwise the calls are those of `Upload`, the selection is cleared only on success, and `isUploading` ends false |
| Materials.MaterialsPage.DeleteMaterial | app/materials/page.tsx:133-162 | the stored object is removed first, then the row; the list loses that id only when both succeed and is unchanged otherwise |
| Summarize.SelectedMaterial | app/summarize/page.tsx:138 | the file is named `selected-material.pdf`, typed `application/pdf` and sized as the blob |
| Summarize.SelectedMaterialSkipsSizeCheck | app/summarize/page.tsx:134-144 | a saved material passes the picker's check only when at most 5 MiB, yet it is selected either way |
| Summarize.SummarizePage.constructor | app/summarize/page.tsx:66-69 | no files, picker closed, empty summary |
| Summarize.SummarizePage.HandleFileChange | app/summarize/page.tsx:91-102 | the selection becomes the acceptable files; the notice is returned; nothing else changes |
| Summarize.SummarizePage.HandleSubmitWithFiles | app/summarize/page.tsx:113-132 | with no files there is an error and the summary is unchanged; otherwise the summary becomes the fixed summary text with a success notice; no request is made |
| Summarize.SummarizePage.HandleMaterialSelect | app/summarize/page.tsx:134-144 | on a successful download the selection is the one `selected-material.pdf` file and the picker closes; on failure nothing changes and the error notice is shown |
| Summarize.SummarizePage.OnError | app/summarize/page.tsx:84-88 | the selected files are cleared and the error notice is shown |
| AiAssistant.EventNames | app/ai-assistant/page.tsx:12-43 | the declared names are exactly `generate-quiz`, `create-podcast` and `show-section` |
| AiAssistant.OnEvent | app/ai-assistant/page.tsx:45-58 | every route pushed starts with `/` |
| AiAssistant.FixedRoutes | app/ai-assistant/page.tsx:48-53 | `generate-quiz` goes to `/quiz/new` and `create-podcast` to `/podcast`, whatever the data |
| AiAssistant.ShowSectionIsNotValidated | app/ai-assistant/page.tsx:54-56 | `show-section` goes to `/` followed by the section exactly as sent |
| AiAssistant.NavigatesIffDeclared | app/ai-assistant/page.tsx:45-58 | an event navigates exactly when its name is declared (and `show-section` carries data); any other name causes no navigation |
| AiAssistant.EveryDeclaredEventHasARoute | app/ai-assistant/page.tsx:12-58 | every declared event, sent with its declared data member, has a route |
| AiAssistant.OpensEmbed | app/ai-assistant/page.tsx:60-64 | the embed opens exactly when the configured id is present and non-empty, and it is opened with that id |
| MaterialsList.MaterialClickRoute | app/components/materials-list.tsx:50-56 | `/quiz/new` exactly for pathnames starting with `/quiz`; `/podcast` exactly for the others starting with `/podcast`; no navigation otherwise |
| MaterialsList.RouteIgnoresMaterial | app/components/materials-list.tsx:50 | the route does not depend on the material clicked |
| MaterialsList.PrefixNotSegment | app/components/materials-list.tsx:51 | the test is a plain prefix: `/quizzes` and any `/quiz…` lead to the quiz generator, while `/my/quiz` leads nowhere |

## Left out

- Quiz.NormalizeAnswer: `toLowerCase` is modelled for ASCII letters only, and other characters are left unchanged. `\s` and `trim` use the full ECMAScript whitespace set.
- Text.ToLower: only the ASCII letters are lowered. JavaScript's `toLowerCase` also lowers other scripts (`É` to `é`), which this model keeps as they are.
- QuizTaking.ScoreIsRoundedPercentage: `Math.round((K / N) * 100)` is modelled as integer round-half-up, `(200K + N) div 2N`. Floating-point error near exact halves is not modelled.
- Rendering is not modelled: JSX, the results view, the MB display via `toFixed`, and the presentational components.
- Toasts, `router.push`, `router.refresh` and `console` logging are represented by returned notices, outcomes and routes.
- Concurrency is not modelled: clicks while an `await` is pending, and state captured by stale closures. Every handler runs to completion before the next one.
- Supabase auth, storage and tables, the PlayNote `fetch` and the browser `fetch` are inputs describing each call's outcome. `createSupabaseServer` in the route is unused.
- Materials.MaterialsPage.UploadMaterials: the follow-up `fetchMaterials` is not awaited. It is modelled as an input list that replaces `materials` when it loads, and its own login and error paths are not modelled.
- `fetchMaterials` on mount, in both the materials page and the sidebar list, is a query to a foreign service and is not modelled.
- `Date.now()` and `Math.random().toString(36).slice(2)` are parameters. The boundary suffix's base-36 shape is not constrained.
- Podcast.Post: the request body's `pdfUrl` is modelled as text or absent. Other JSON types are not modelled, nor is a `null` body.
- Podcast.Post: the reply's JSON is modelled as an object or a parse error.
- Podcast.Post: the environment variables are plain parameters.
- Podcast.Post: the `'Unknown error'` branch is not modelled. Every value thrown in the route is an `Error`.
- Podcast.RespondTo: JSON key order is not modelled.
- Podcast.ExtractSourceUrl: only the first field (`sourceFileUrl`) is decoded. No general `multipart/form-data` parser is modelled.
- Podcast.EncodeChar: characters are Unicode scalar values. JavaScript strings may hold lone surrogates, which `Buffer.byteLength` counts as 3 bytes; they are not modelled.
- Summarize.SummarizePage.HandleSubmitWithFiles: the 2-second `setTimeout` and the empty summary visible during it are not separate states. Only the final state is stated. The catch block cannot be reached and is left out.
- Summarize.SummarizePage.HandleMaterialSelect: `fetch` does not fail on an HTTP error status, so such a response's body is selected like any other. The download input covers that case as a successful download of that body.
- `encodeFileAsBase64` and the `onResponse`/`onFinish` completion hooks only log or toast and are never used for state. They are not modelled.
- AiAssistant.OnEvent: `data.section` is modelled as text or absent. Non-string values that a template literal would render are not modelled.
- AiAssistant.OpensEmbed: the `openEmbed` call and the prompt text it passes are not modelled.
- `app/api/generate-summary/route.ts` only checks that its input is present before calling a hosted language model. It is not part of this model.

## Findings

| source | as written | input that shows it | evidently intended | confidence | as-written member | corrected member |
|---|---|---|---|---|---|---|
| app/components/quiz/quiz.tsx:77-106 | After a failed score update or attempt insert on the last question, that question stays on screen. Clicking an answer again appends a second response for it, so the score counts it twice and can exceed 100. | A one-question quiz answered correctly; the score update fails; the same correct answer is clicked again and both writes succeed. The stored score is 200. | A retry replaces the answer to the question on screen, so there is one response per question and the score stays within 0..100. | not executed | QuizTaking.RetryAfterFailedSaveDoublesScore | QuizTaking.FixedAnswerKeepsScoreInRange |
