# BrowserEngine course app: a Dafny model

BrowserEngine is a single-page course application. It asks a generative AI service
for a syllabus of chapters. When a chapter is selected it fetches that chapter's theory
text, lab assignment and quiz on demand and keeps them in memory; a failed fetch is
retried. It records quiz completion per chapter and shows progress in a sidebar.
This project models the logic of three components in Dafny and proves properties
about it:

- **The course state machine** (`App.tsx`, modules `CourseApp` and `InFlight`).
  - The state is the course record (syllabus, selected chapter, generating flag, error)
    plus the active tab.
  - Each handler and effect step is a function on `CourseState`: the syllabus result,
    the lazy-load guard, the begin and finish steps of a load, chapter selection and
    quiz completion.
  - Class `CourseApp.Course` holds the two pieces of component state. Its methods
    perform these steps and promise that the new state equals that function of the
    old state.
  - View selection is the function `View`.
  - The Theory tab's line classifier is the separate module `TheoryText`.
- **The quiz** (`components/QuizView.tsx`, module `Quiz`).
  - Class `QuizView` holds the question list, `currentIdx`, `selectedOption`,
    `isSubmitted` and `score`, plus a ghost record of which submitted answers were
    correct.
  - Its invariant `Valid()` gives the index bounds and `score <= currentIdx +
    (isSubmitted ? 1 : 0) <= |questions|`.
- **The sidebar** (`components/ChapterNavigation.tsx`, module `Navigation`). Its
  functions are pure: the entries with their position labels, active flags and icons,
  and the progress percentage in exact integer arithmetic.

The records of `types.ts` are transcribed as datatypes in `CourseTypes`. The AI service
(`services/gemini.ts`, module `Gemini`) is reduced to what callers see:

- a call either returns a value or throws an `Error` with a fixed message;
- an empty API key fails first;
- syllabus chapters arrive not completed, without content and not loading.

What the AI returns is a parameter of the model.

A content load is split into a begin step and a finish step. Between them a ticket
records what the effect's closure captured: the index, the chapter and the syllabus
snapshot. As in the source, both finish branches rebuild the syllabus from that
snapshot. Module `InFlight` puts the steps into sessions with several pending fetches
in any order. It contrasts this finish step with one that updates the latest state
(see Findings).

## Model

| member | source | states |
|---|---|---|
| `Gemini.FreshChapter` | services/gemini.ts:63-68 | a syllabus item becomes a chapter with the same id, title and description, not completed, without content, not loading |
| `Gemini.FreshChapters` | services/gemini.ts:63-68 | the response items map one-to-one, in order, onto fresh chapters |
| `Gemini.GenerateSyllabus` | services/gemini.ts:35-73 | an empty key fails with "API Key not found"; otherwise a failed call fails with the syllabus message; it succeeds exactly when a key and a response exist, with one fresh chapter per item carrying that item's id, title and description; every failure is an Error with a non-empty message |
| `Gemini.GenerateChapterContent` | services/gemini.ts:75-125 | an empty key fails with "API Key not found"; otherwise a failed call fails with "Failed to load chapter content."; success returns the response unchanged |
| `Navigation.IsActive` | components/ChapterNavigation.tsx:28 | `chapter.id === currentChapterId`, with null equal to no id; its properties are `ActiveEntries` and `AtMostOneActive` |
| `Navigation.EntryFor` | components/ChapterNavigation.tsx:28-69 | the fields one sidebar button is drawn from: its label number, active and locked flags, status icon and the id its click passes; pinned down by the entry lemmas below |
| `Navigation.Entries` | components/ChapterNavigation.tsx:27-71 | one sidebar entry per chapter |
| `Navigation.CompletedCount` | components/ChapterNavigation.tsx:77 | the completed count is at most the chapter count; it is 0 exactly when no chapter is completed and equals the length exactly when all are |
| `Navigation.Progress` | components/ChapterNavigation.tsx:77 | progress lies in 0..100; for a non-empty list it is 100·c/t rounded to the nearest integer with halves rounded up (2t·p ≤ 200c + t < 2t·(p+1)); it is 0 for an empty list |
| `Navigation.ProgressWhenNoneCompleted` | components/ChapterNavigation.tsx:77 | no completed chapter gives 0% |
| `Navigation.ProgressWhenAllCompleted` | components/ChapterNavigation.tsx:77 | a non-empty list with all chapters completed gives 100% |
| `Navigation.CompletedCountAfterMark` | components/ChapterNavigation.tsx:77 | marking chapter i completed adds exactly one to the count, or nothing if it already was completed |
| `Navigation.ProgressNeverDropsOnCompletion` | components/ChapterNavigation.tsx:77 | completing one more chapter never lowers progress |
| `Navigation.ProgressMonotone` | components/ChapterNavigation.tsx:77 | progress never drops when no chapter loses its completed mark |
| `Navigation.ActiveEntries` | components/ChapterNavigation.tsx:28 | an entry is active exactly when its chapter id equals the current id; with no current chapter none is active |
| `Navigation.AtMostOneActive` | components/ChapterNavigation.tsx:28 | with distinct ids, no two entries are active |
| `Navigation.EveryEntrySelectsItsChapter` | components/ChapterNavigation.tsx:30-36 | no entry is locked, and clicking entry i hands chapter i's own id to onSelectChapter |
| `Navigation.EntryIcons` | components/ChapterNavigation.tsx:44-50 | completed chapters show the check mark and all others the circle; the lock never shows |
| `Navigation.LabelsArePositions` | components/ChapterNavigation.tsx:56 | the "CHAPTER n" label of entry i is i + 1, whatever the chapter ids are |
| `TheoryText.IndexOfFrom` | App.tsx:190-193 | the first occurrence of the pattern at or after k, or -1 when there is none |
| `TheoryText.ReplaceFirst` | App.tsx:190-193 | `replace` with a string pattern: without an occurrence the string is unchanged; with one, the first occurrence and only it is replaced by the replacement (so the length changes by the replacement's length minus the pattern's); when the string starts with the pattern, the replacement takes the place of exactly that leading pattern |
| `TheoryText.TrimStart` | App.tsx:194 | the result is a suffix that starts with a non-whitespace character; everything removed is whitespace |
| `TheoryText.TrimEnd` | App.tsx:194 | the result is a prefix that ends with a non-whitespace character; everything removed is whitespace |
| `TheoryText.Trim` | App.tsx:194 | trimming gives "" exactly when the line is all ECMAScript whitespace |
| `TheoryText.Classify` | App.tsx:190-195 | the tests of the Theory tab in their order: "### ", "## ", "# ", "- ", an empty trim, then a paragraph; what the order comes to is `ClassifyByPrefix`, what the text keeps is `ClassifyRoundTrip` |
| `TheoryText.MarkersExclusive` | App.tsx:190-193 | no line starts with two of the markers "### ", "## ", "# ", "- " |
| `TheoryText.ClassifyByPrefix` | App.tsx:189-195 | each heading level and the list item are decided by their own prefix alone (so a "### " line is never an H2); blank means all whitespace; a paragraph is everything else |
| `TheoryText.ClassifyRoundTrip` | App.tsx:190-195 | for a non-blank line, the marker followed by the rendered text gives back the line |
| `TheoryText.SplitLines` | App.tsx:189 | `split('\n')` gives at least one line, no line contains a newline, and joining the lines with '\n' gives the text back |
| `TheoryText.SplitUnique` | App.tsx:189 | any newline-free lines that join back to the text are exactly `SplitLines` of it |
| `TheoryText.Render` | App.tsx:189-196 | the Theory tab renders one classified entry per line of the text, in order |
| `Quiz.QuizView.Valid` | components/QuizView.tsx:16-34 | under the quiz invariant, score ≤ currentIdx + (1 if submitted) ≤ number of questions; the body ties the score to one recorded answer per submitted question, the current one being whether its selection is correct |
| `Quiz.QuizView.constructor` | components/QuizView.tsx:11-14 | the quiz starts at question 0 with no selection, not submitted and score 0, and the invariant holds |
| `Quiz.QuizView.SelectOption` | components/QuizView.tsx:69-70 | choosing an option selects it unless the question is submitted, when nothing changes |
| `Quiz.QuizView.HandleSubmit` | components/QuizView.tsx:19-24 | submitting needs a selection; it sets isSubmitted and adds 1 to the score exactly when the selection is the correct index |
| `Quiz.QuizView.HandleNext` | components/QuizView.tsx:26-34 | before the last question it moves to the next one, clearing the selection and the submitted flag and keeping the score; on the last question it reports completion, whatever the score, and changes nothing |
| `Quiz.QuizView.IsCorrect` | components/QuizView.tsx:17 | the "Correct!" or "Incorrect" feedback shown after a submission agrees with the answer HandleSubmit recorded for it, which is whether that submission raised the score |
| `Quiz.QuizView.ShowsFinish` | components/QuizView.tsx:111 | the button reads "Finish Quiz" exactly on the last question, which is when HandleNext reports completion |
| `Quiz.StyleOf` | components/QuizView.tsx:52-64 | the nested conditional that picks one option button's style; characterised by `StylesBeforeAndAfterSubmit` |
| `Quiz.OptionStyles` | components/QuizView.tsx:51-64 | one style per option of the question |
| `Quiz.StylesBeforeAndAfterSubmit` | components/QuizView.tsx:52-64 | before submission only the selected option is highlighted; after it the correct option is marked correct, a wrong selection is marked wrong, every other option is dimmed, and nothing is highlighted |
| `Quiz.SubmittedMarks` | components/QuizView.tsx:52-75 | after submission, exactly the correct index is marked correct and at most one option is marked wrong |
| `CourseApp.InitialState` | App.tsx:11-16 | the initial `useState` value: no syllabus, no chapter, generating, no error; `StartsOnGeneratingScreen` gives what it renders |
| `CourseApp.ErrorMessage` | App.tsx:35 | an Error's message, and "Unknown error occurred" for anything else thrown |
| `CourseApp.Truthy` | App.tsx:109 | JavaScript truthiness of the error: null and "" are falsy; `EmptyErrorMessageShowsMainLayout` shows the "" case |
| `CourseApp.FindIndex` | App.tsx:48 | `findIndex` gives -1 exactly when no chapter has the id, and otherwise the first position that has it |
| `CourseApp.Find` | App.tsx:89 | the current chapter exists exactly when a chapter has the current id; it is the first such chapter |
| `CourseApp.AfterInit` | App.tsx:22-37 | success stores the syllabus and selects its first chapter's id (none for an empty syllabus); failure stores the Error's message or "Unknown error occurred"; both clear isGeneratingSyllabus |
| `CourseApp.LoadTarget` | App.tsx:46-53 | no load begins when no chapter is selected, when no chapter has the id, or when the first chapter with the id has content or is loading; otherwise the target is that first chapter, and it has no content and is not loading |
| `CourseApp.AfterBegin` | App.tsx:55-58 | beginning sets isLoading on exactly the target index and changes nothing else; the ticket records the index, the chapter and the pre-begin syllabus |
| `CourseApp.AfterFinish` | App.tsx:60-69 | both branches rebuild the syllabus from the ticket's snapshot and clear isLoading at the index; success stores the content; failure leaves content absent and sets the error message |
| `CourseApp.SequentialLoadSucceeds` | App.tsx:56-64 | a load with nothing in between stores the content and is then not fetched again |
| `CourseApp.SequentialLoadFailsAndRetries` | App.tsx:65-73 | a failed load with nothing in between restores the syllabus and sets the error, so the same chapter is targeted again |
| `CourseApp.AfterSelect` | App.tsx:75-78 | selecting sets currentChapterId to the id and changes nothing else in the state |
| `CourseApp.MarkCompleted` | App.tsx:83-85 | exactly the chapters with the given id become completed; the others are unchanged |
| `CourseApp.AfterQuizComplete` | App.tsx:80-87 | with no chapter selected nothing changes; otherwise only the syllabus changes, and its length stays the same |
| `CourseApp.QuizCompleteMarksCurrent` | App.tsx:80-87 | a chapter is completed afterwards exactly when it was before or its id is the current one; no other field of any chapter changes |
| `CourseApp.QuizCompleteIdempotent` | App.tsx:80-87 | completing twice gives the same state as completing once |
| `CourseApp.QuizCompleteNeverLowersProgress` | App.tsx:80-87 | quiz completion never lowers the sidebar's progress |
| `CourseApp.ClickedEntryBecomesActive` | App.tsx:75-78 | clicking sidebar entry i selects chapter i, which is then the active entry |
| `CourseApp.PanelFor` | App.tsx:186-209 | the active tab picks the panel: the rendered theory lines, the assignment, or the quiz questions |
| `CourseApp.AreaFor` | App.tsx:179-215 | the content area shows the spinner exactly when the current chapter is loading; otherwise the tabs when it has content; otherwise the failure message |
| `CourseApp.View` | App.tsx:91-220 | the generating screen exactly while generating; otherwise the error screen exactly for a truthy error with an empty syllabus; otherwise the main layout, with the sidebar's entries and progress for the same state and a header exactly when a current chapter exists |
| `CourseApp.StartsOnGeneratingScreen` | App.tsx:11-16 | the initial state shows the generating screen |
| `CourseApp.FailedSyllabusShowsError` | App.tsx:31-36 | every failure of the syllabus service shows the error screen with its message |
| `CourseApp.EmptyErrorMessageShowsMainLayout` | App.tsx:109 | an Error with an empty message is falsy: the main layout shows, with an empty sidebar at 0%, no header and the failure message |
| `CourseApp.LoadedSyllabusBeginsFirstChapter` | App.tsx:25-30 | after a successful syllabus, the first chapter is selected and its load is the next to begin; an empty syllabus selects and begins nothing |
| `CourseApp.BeganLoadShowsSpinner` | App.tsx:179-183 | once a load begins, the content area shows the spinner |
| `CourseApp.FinishedLoadShowsResult` | App.tsx:184-215 | a load completed with nothing in between shows the tab panel for the new content, or the failure message |
| `CourseApp.Course.constructor` | App.tsx:11-18 | the component starts in the initial state on the Theory tab |
| `CourseApp.Course.InitCourse` | App.tsx:22-37 | settling the syllabus request moves the state by `AfterInit` and keeps the tab |
| `CourseApp.Course.BeginLoadContent` | App.tsx:45-58 | the early returns and the loading flag move the state by `AfterBegin` and return its ticket |
| `CourseApp.Course.FinishLoadContent` | App.tsx:60-69 | a settled fetch moves the state by `AfterFinish`, using the ticket's snapshot |
| `CourseApp.Course.HandleSelectChapter` | App.tsx:75-78 | selection moves the state by `AfterSelect` and resets the tab to Theory |
| `CourseApp.Course.HandleQuizComplete` | App.tsx:80-87 | quiz completion moves the state by `AfterQuizComplete` |
| `CourseApp.Course.SetActiveTab` | App.tsx:145-173 | a tab button sets the tab and leaves the course state alone |
| `CourseApp.Course.Render` | App.tsx:89-220 | the rendered screen is `View` of the current state and tab |
| `InFlight.Without` | App.tsx:60-61 | a settled fetch leaves the pending list; the others keep their order |
| `InFlight.BeginSession` | App.tsx:45-58 | a begin adds one pending fetch, at the end, exactly when the guard lets a load begin, and keeps the fetches already pending |
| `InFlight.StepAsWritten` | App.tsx:43-87 | the component's steps with the finish step as written keep every ticket valid |
| `InFlight.RunAsWritten` | App.tsx:43-87 | any sequence of these steps keeps every ticket valid |
| `InFlight.AfterFinishOnLatest` | App.tsx:60-69 | the corrected finish changes only the loaded chapter's content and loading flag in the latest syllabus; success stores the content; failure keeps content absent and sets the error |
| `InFlight.StepCorrected` | App.tsx:43-87 | with the corrected finish: only a selection moves the current chapter, the syllabus keeps its length, and a finish removes exactly its own pending fetch; the invariant lemmas below are about it |
| `InFlight.FinishStepsAgreeWithoutOverlap` | App.tsx:56-68 | with nothing between begin and finish, the as-written finish and the corrected finish give the same state |
| `InFlight.BeginKeepsInFlight` | App.tsx:53-58 | a begin step keeps at most one fetch per chapter: the chapter it marks had none pending |
| `InFlight.FinishKeepsInFlight` | App.tsx:60-69 | a corrected finish keeps the in-flight invariant |
| `InFlight.SelectAndCompleteKeepInFlight` | App.tsx:75-87 | selection and quiz completion keep the in-flight invariant |
| `InFlight.CorrectedStepKeepsInFlight` | App.tsx:43-87 | every corrected step keeps at most one pending fetch per chapter, each on a chapter marked loading and without content |
| `InFlight.RunCorrected` | App.tsx:73 | any sequence of corrected steps keeps the in-flight invariant |
| `InFlight.CorrectedStepKeepsContent` | App.tsx:43-87 | a corrected step never replaces or drops loaded content, never undoes completion, and keeps the syllabus length |
| `InFlight.CorrectedRunKeepsContent` | App.tsx:43-87 | over any sequence of corrected steps, loaded content is kept (so never fetched again) and completion is never undone |
| `InFlight.OverlappingLoadsFetchTwice` | App.tsx:62-63 | as written, two overlapping loads leave two fetches pending for the same chapter |
| `InFlight.CorrectedOverlapFetchesOnce` | App.tsx:62-63 | with the corrected finish, the same events leave one fetch pending |
| `InFlight.LateFinishUndoesCompletion` | App.tsx:62-63 | as written, a fetch that finishes after a quiz completion on another chapter undoes that completion |
| `InFlight.CorrectedFinishKeepsCompletion` | App.tsx:62-63 | with the corrected finish, the same events keep the completion |
| `InFlight.LateFinishLosesContent` | App.tsx:53-68 | as written, a stale finish can leave a chapter without content, marked loading, with nothing pending, so the guard never fetches it again |

## Left out

- The AI service's prompts, response schemas, network call, temperature and `JSON.parse` (services/gemini.ts:7-33, 38-62, 78-119). What the call and the parse produce is the `response` parameter; `None` stands for anything they throw. Extra fields the AI adds to a syllabus item are not carried.
- `Gemini.GenerateChapterContent`: assumes the parse yields a well-formed chapter content. An empty response text parses to `{}` (services/gemini.ts:120), which has no theory, assignment or quiz; in the source that truthy value shows the tabs and the Theory tab then throws on `content.theory.split`. The model's `response` cannot express such a value.
- `console.error` logging in the service (services/gemini.ts:70, 122).
- components/LabView.tsx: it only displays four strings and calls the clipboard API; the model keeps the assignment in `LabPanel`.
- Rendering: JSX markup, CSS classes, icons beyond the sidebar's status icon, `HashRouter`, and the Retry button's `window.location.reload()` (App.tsx:117).
- React scheduling. Re-renders, `useEffect` dependency tracking (App.tsx:73) and promise interleaving are explicit steps. In the class the caller runs them; in `InFlight` they are an arbitrary event sequence. The effect re-runs after a failed finish because the syllabus changed, so the model claims no bound on retries.
- State captured by closures, other than a load's ticket. Handlers read the state of the render that created them. The model gives them the current state, as when the user acts on the latest render.
- `Navigation.Progress`: uses exact rationals. The source's floating-point division can round half-way cases differently. The bar width (components/ChapterNavigation.tsx:82) uses the unrounded float and is not modelled.
- `Quiz.QuizView.constructor`: requires at least one question. With none, the component throws while rendering (components/QuizView.tsx:16-17).
- QuizView's lifetime: mounting a fresh quiz when the active tab changes is not tied to the course model.
- `Quiz.QuizView.SelectOption`: requires an index of one of the current question's options, because only the option buttons call it. `HandleSubmit` and `HandleNext` require the state in which their buttons are shown (components/QuizView.tsx:98-114).
- Strings are sequences of Unicode scalar values; JavaScript's UTF-16 code units are not modelled. Ids and indexes are unbounded integers rather than JavaScript numbers.
- types.ts is transcribed as datatypes only. An absent `isLoading` reads as `false`; absent and `null` content are both `None`.

## Findings

| source | as written | input that shows it | evidently intended | confidence | as-written member | corrected member |
|---|---|---|---|---|---|---|
| App.tsx:62-68 | the finish step rebuilds the syllabus from `state.syllabus` as captured when the load began, and from `chapter` as it was then | chapters 1 and 2 fresh, chapter 1 selected: begin, select 2, begin, chapter 1's fetch succeeds. Chapter 2's loading flag is restored to false while its fetch is pending, and the effect starts a second fetch for it. Variant: chapter 2 already loaded; begin 1, select 2, complete the quiz, chapter 1's fetch succeeds, and chapter 2 is no longer completed. Third variant (`LateFinishLosesContent`): begin, select 2, begin, chapter 1's fetch succeeds, begin, chapter 2's second fetch succeeds, chapter 2's first fetch succeeds; chapter 1 then has no content and stays loading, with nothing pending | at most one fetch per chapter, with later updates kept: apply the finish to the latest state (`prev.syllabus`) | medium; not executed | `InFlight.OverlappingLoadsFetchTwice` | `InFlight.CorrectedStepKeepsInFlight` |

The class `CourseApp.Course` performs the finish step as the source writes it
(`FinishLoadContent`, specified by `AfterFinish`). `InFlight.AfterFinishOnLatest` is
the corrected finish step. `InFlight.StepCorrected` uses it, and the session-level
results are proved about it for every event sequence: the in-flight invariant
(`CorrectedStepKeepsInFlight`, `RunCorrected`) and the permanence of loaded content
and completion (`CorrectedRunKeepsContent`). `CorrectedOverlapFetchesOnce` and
`CorrectedFinishKeepsCompletion` are examples: the corrected step replays two of the
traces above.
`FinishStepsAgreeWithoutOverlap` shows that the two finish steps agree whenever
nothing happens between begin and finish.
