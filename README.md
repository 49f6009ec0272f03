# Teaching-assistant backend: a verified model of its computational core

The application helps teachers generate question papers, study notes and slide decks with a
language model, and computes analytics over students' test results. This project models the
parts of it that compute rather than talk to a database or a service:

- **Performance analytics** (`Performance`, `performance.dfy`). For one student's records,
  newest first, it computes:
  - the mean percentage;
  - topic-wise tallies, grouped by topic name in first-seen order;
  - the topics ranked by percentage, with the three strongest and three weakest;
  - the progress list of the ten newest tests, oldest first.

  It also models the filtered, paginated record listing. The grouping is written as the
  source's nested loops over an insertion-ordered map, and the sort as an in-place sort of an
  array. Both are proved equal to functional definitions, and the properties are proved about
  those definitions.
- **Pagination** (`Pagination`, `pagination.dfy`). Shared by the listing handlers:
  - the defaults `page = 1` and `limit = 10`;
  - the skip `(page - 1) * limit` and the page count `⌈total / limit⌉`;
  - the page of an ordered result that the database returns.
- **Slide plan** (`Slides`, `slides.dfy`). The slides that `generatePPTFromNotes` adds:
  - a title slide;
  - then one slide per non-blank paragraph: a heading slide for a paragraph that starts with
    `#`, otherwise a numbered key-points slide.
- **Completion text handling** (`Ai`, `ai.dfy`):
  - the prompt's language name;
  - the `||` defaulting of a missing completion;
  - the extraction of the JSON text from a fenced code block, as the two regular expressions
    and `trim` do it.
- **Question papers** (`Questions`, `questions.dfy`):
  - total marks, where missing marks count as 0;
  - the creation defaults, and the schema checks that a save enforces;
  - a `PaperStore` class holding papers in a map by id, with create, lookup by id, the
    teacher's paginated listing, and owner-checked delete.
- **Client helpers** (`Helpers`, `helpers.dfy`): `calculatePercentage` and `truncate`.
- `Text` (`text.dfy`) holds the ECMAScript string built-ins these rely on: `trim` and `\s`,
  `indexOf`, `split`, `join`, and the decimal rendering of a number. `Basics` (`basics.dfy`)
  holds `Option`, the handler `Response` (body, 404 or 500), `Math.min` and `reverse`.

Modelling choices:
- The database is modelled by its inputs: a query's result is a sequence already ordered as the
  query sorts it. The language-model calls, the clock and the authenticated user id are
  parameters.
- Marks, totals and percentages are exact `real` numbers.
- Strings are sequences of Unicode code points.
- A handler's JSON answer is `Ok(body)`, and its 404 and 500 answers are `NotFound` and
  `ServerError`.

## Model

| member | source | states |
|---|---|---|
| Basics.Reverse | backend/src/controllers/performanceController.ts:123-126 | definition of `.reverse()` on a copy; the length is kept, and the element order is stated by Basics.ReverseAt |
| Basics.ReverseAt | backend/src/controllers/performanceController.ts:123-126 | position `k` of the reversal holds the element at position `n - 1 - k` |
| Basics.ReverseMultiset | backend/src/controllers/performanceController.ts:123-126 | reversing keeps exactly the same elements, with their multiplicities |
| Text.Trim | backend/src/services/aiService.ts:51 | the result is a factor of the input with only white space around it, and it neither starts nor ends with white space |
| Text.TrimEmptyIffBlank | backend/src/services/pptService.ts:44 | a section's trim is empty exactly when the section is all white space |
| Text.IndexOf | backend/src/services/aiService.ts:48 | the first occurrence at or after the start position, or none at all |
| Text.Join | backend/src/services/pptService.ts:53 | definition of `.join(sep)`; that it undoes Text.Split is stated by Split's ensures |
| Text.Split | backend/src/services/pptService.ts:44 | `split` gives at least one part, and joining the parts with the separator gives back the text |
| Text.SplitPartsFree | backend/src/services/pptService.ts:51 | no part of a split contains the separator |
| Text.SplitFirst | backend/src/services/pptService.ts:51-53 | the first part is the prefix before the first separator (or the whole text when there is none), and the remaining parts rejoin into the text after it |
| Text.SplitCutsLeftmost | backend/src/services/pptService.ts:44 | every cut is at the leftmost occurrence left: no part followed by the separator holds an occurrence starting inside the part, so cuts never overlap and a third line break opens the next part |
| Text.NatToString | backend/src/services/pptService.ts:76 | the rendering is a non-empty digit string with no leading zero whose value is the number |
| Pagination.Skip | backend/src/controllers/performanceController.ts:55 | for page ≥ 1 the skip is the multiple of `limit` whose quotient is `page - 1`; for page < 1 it is negative |
| Pagination.Pages | backend/src/controllers/performanceController.ts:65 | the least page count whose pages hold every record, and 0 for no records |
| Pagination.Info | backend/src/controllers/performanceController.ts:44-66 | the pagination block echoes the requested or default page and limit, and its page count is the least that covers the total, 0 for no records |
| Pagination.PageOf | backend/src/controllers/performanceController.ts:54-55 | a negative skip is an error; otherwise the page holds at most `limit` records, the records from the skip on, in order, and is full when enough records remain |
| Pagination.ItemOnItsPage | backend/src/controllers/performanceController.ts:54-65 | every record appears on page `k / limit + 1`, which is one of the reported pages, at position `k % limit` |
| Pagination.PagePositionUnique | backend/src/controllers/performanceController.ts:55 | a record's page and position are determined by its index, so no record is on two pages |
| Performance.SumPercent | backend/src/controllers/performanceController.ts:98-99 | definition of the left `reduce` of the record percentages; its bounds are stated by Performance.SumPercentBounds |
| Performance.SumPercentBounds | backend/src/controllers/performanceController.ts:98-99 | with marks between 0 and the total, the summed percentages lie between 0 and 100 per record |
| Performance.FirstSeenMembers | backend/src/controllers/performanceController.ts:102-113 | the first-seen order of the topic names holds each name that occurs, once |
| Performance.Upsert | backend/src/controllers/performanceController.ts:106-111 | definition of `topicMap.set(topic, existing + entry)`; what it does is stated by Performance.UpsertFacts |
| Performance.Group | backend/src/controllers/performanceController.ts:102-113 | definition of the topic map after every entry is added in order; its meaning is stated by Performance.GroupCorrect |
| Performance.UpsertFacts | backend/src/controllers/performanceController.ts:106-111 | adding an entry whose topic is already a key adds its tally to that key in place and leaves the key order and every other key alone; an entry with a new topic is appended with its own tally |
| Performance.GroupCorrect | backend/src/controllers/performanceController.ts:102-113 | the map's keys are the topic names in first-seen order, each once, and each key carries the marks, total and count summed over every entry with that name |
| Performance.TallyOfConcat | backend/src/controllers/performanceController.ts:104-111 | a topic's tally over two runs of entries is the sum of the two tallies |
| Performance.TallyCount | backend/src/controllers/performanceController.ts:110 | a topic's entry count is positive exactly when the topic occurs |
| Performance.TallyPermutationInvariant | backend/src/controllers/performanceController.ts:104-113 | reordering the records changes no topic's summed marks, total or count |
| Performance.AggregationPermutationInvariant | backend/src/controllers/performanceController.ts:102-113 | reordering the records gives the same topics with the same tallies; only the key order may change |
| Performance.AggregateTopics | backend/src/controllers/performanceController.ts:102-113 | the nested `forEach` loops build exactly the grouping: first-seen keys, each once, each with the tallies over all its entries |
| Performance.GroupTotalsPositive | backend/src/controllers/performanceController.ts:117 | with positive summed topic totals, no grouped topic's percentage divides by zero |
| Performance.Scores | backend/src/controllers/performanceController.ts:115-118 | one score per map entry, in key order, each `marks / total * 100` of that topic |
| Performance.InsertDesc | backend/src/controllers/performanceController.ts:120 | definition of one insertion step of the stable descending sort; stated by Performance.InsertDescMultiset, InsertDescSorted and InsertDescAt |
| Performance.SortDesc | backend/src/controllers/performanceController.ts:120 | definition of the order the comparator sort produces; stated by Performance.SortDescCorrect and SortDescStable |
| Performance.InsertDescMultiset | backend/src/controllers/performanceController.ts:120 | one insertion step adds exactly the inserted element |
| Performance.InsertDescSorted | backend/src/controllers/performanceController.ts:120 | one insertion step keeps a ranking sorted highest first |
| Performance.SortDescPermutation | backend/src/controllers/performanceController.ts:120 | the ranking is a permutation of the scores |
| Performance.SortDescSorted | backend/src/controllers/performanceController.ts:120 | the ranking is sorted by percentage, highest first |
| Performance.SortDescStable | backend/src/controllers/performanceController.ts:120 | the sort is stable: the topics sharing a percentage keep their first-seen order |
| Performance.SortDescCorrect | backend/src/controllers/performanceController.ts:120 | the ranking has the same length, is sorted highest first and is a permutation of its input |
| Performance.InsertDescAt | backend/src/controllers/performanceController.ts:120 | an insertion step places the element after the last element whose percentage is at least its own |
| Performance.SortByPercentage | backend/src/controllers/performanceController.ts:120 | the in-place sort leaves the array holding the stable descending ranking of its old contents |
| Performance.InsertNext | backend/src/controllers/performanceController.ts:120 | one pass moves `a[i]` left past the lower percentages so that the prefix is the insertion of `a[i]` into the ranked prefix; later cells are unchanged |
| Performance.Strongest | backend/src/controllers/performanceController.ts:122 | definition of `slice(0, 3)`; stated by Performance.StrongWeak |
| Performance.Weakest | backend/src/controllers/performanceController.ts:123 | definition of `slice(-3).reverse()`; stated by Performance.StrongWeak |
| Performance.StrongWeak | backend/src/controllers/performanceController.ts:122-123 | the strong topics are the best `min(3, n)` in order and no worse than any other; the weak topics are the worst `min(3, n)`, lowest first; with three topics or fewer the weak list is the strong list reversed |
| Performance.Progress | backend/src/controllers/performanceController.ts:126-130 | definition of the ten newest records, reversed and mapped; stated by Performance.ProgressShape |
| Performance.ProgressShape | backend/src/controllers/performanceController.ts:126-130 | the progress holds the `min(10, n)` newest records, oldest first, each with its date, name and own percentage |
| Performance.ProgressChronological | backend/src/controllers/performanceController.ts:81-130 | records ordered newest first give progress dates that run oldest first |
| Performance.Analyze | backend/src/controllers/performanceController.ts:84-139 | definition of the analytics summary; stated by Performance.AnalyzeCorrect |
| Performance.RankedTopics | backend/src/controllers/performanceController.ts:102-123 | definition of the ranked topic list; stated by Performance.RankedTopicsCorrect |
| Performance.AnalyzeCorrect | backend/src/controllers/performanceController.ts:84-139 | no records answer zeros and empty lists; otherwise the answer has the record count, the mean of the record percentages (a percentage when marks lie within totals) and at most ten progress points |
| Performance.RankedTopicsCorrect | backend/src/controllers/performanceController.ts:102-123 | the ranking is sorted highest first, with exactly one entry per topic name from any record, scored by that topic's summed marks over summed totals |
| Performance.ScoresCorrect | backend/src/controllers/performanceController.ts:115-118 | before sorting there is one score per topic name in first-seen order, each the percentage of its summed tally |
| Performance.GetStudentAnalytics | backend/src/controllers/performanceController.ts:84-139 | the imperative handler body (grouping loops, in-place sort, slices) answers exactly the specified summary |
| Performance.BuildQuery | backend/src/controllers/performanceController.ts:46-48 | a filter is set exactly when its parameter is present and non-empty, and then to that parameter |
| Performance.Find | backend/src/controllers/performanceController.ts:50 | the result holds exactly the stored records that match the query, and no more records than the store |
| Performance.FindConcat | backend/src/controllers/performanceController.ts:50 | the matches of two runs of records are the matches of the first run followed by those of the second: order and duplicates are kept |
| Performance.FindOne | backend/src/controllers/performanceController.ts:50 | a single record is found exactly when it matches the query |
| Performance.UnfilteredFindsAll | backend/src/controllers/performanceController.ts:46-50 | with no filters every record is found, in store order |
| Performance.ListPerformanceRecords | backend/src/controllers/performanceController.ts:42-71 | a page below 1 answers 500; otherwise the answer is exactly the requested page of the matches in store order, at most `limit` records, with the pagination block over the match count |
| Performance.ListingShowsEveryMatch | backend/src/controllers/performanceController.ts:42-71 | the `k`-th match appears on page `k / limit + 1`, one of the reported pages, at position `k % limit` |
| Performance.AverageExample | backend/src/controllers/performanceController.ts:98-99 | tests at 80/100 and 60/100 average to exactly 70 |
| Performance.TopicExample | backend/src/controllers/performanceController.ts:104-118 | two entries of one topic, 80/100 and 20/20, rank as a single topic at 100/120 = 83.3…% |
| Performance.ZeroEntryExample | backend/src/controllers/performanceController.ts:104-118 | an entry with total 0 is accepted when its topic's sum is positive: 0/0 and 5/10 rank the topic at 50 percent |
| Slides.KeepNonBlank | backend/src/services/pptService.ts:44 | the filter keeps exactly the pieces whose trim is non-empty, and never more pieces than it was given |
| Slides.KeepNonBlankConcat | backend/src/services/pptService.ts:44 | the filter keeps the pieces' order |
| Slides.Sections | backend/src/services/pptService.ts:44 | a section is a paragraph of the content that is not all white space |
| Slides.TripleBreakExample | backend/src/services/pptService.ts:44-50 | three line breaks before a `#` line split as "x" and "\n# H", so that section becomes a key-points slide |
| Slides.StripHeadingMarker | backend/src/services/pptService.ts:52 | a line starting with `#` loses its longest prefix matching `#+\s*`; any other line is unchanged |
| Slides.MarkerThenHeading | backend/src/services/pptService.ts:52 | a `#` line is a heading marker followed by the heading text |
| Slides.SectionSlide | backend/src/services/pptService.ts:46-86 | a section becomes a heading slide exactly when it starts with `#`, and otherwise a key-points slide whose points are the whole section |
| Slides.HeadingSlideParts | backend/src/services/pptService.ts:50-53 | a section starting with `#` gives a heading slide: its first line is marker plus heading, the heading does not start with white space, and first line, line break and body rebuild the section |
| Slides.KeyPointsSlideParts | backend/src/services/pptService.ts:74-86 | any other section gives a key-points slide titled with its 1-based position, with the whole section as its points |
| Slides.Plan | backend/src/services/pptService.ts:21-97 | definition of the deck: the title slide, then one slide per kept section; stated by Slides.PlanShape |
| Slides.PlanShape | backend/src/services/pptService.ts:21-97 | the deck is the title slide (chapter, then "board - Class n - subject") followed by one heading or key-points slide per kept section, in order |
| Slides.GenerateSlides | backend/src/services/pptService.ts:44-97 | the `forEach` loop with one `addSlide` per step builds exactly the planned deck |
| Ai.LanguageName | backend/src/services/aiService.ts:29 | the prompt says Hindi exactly when the language is "hi", and English otherwise |
| Ai.ContentOr | backend/src/services/aiService.ts:46 | a present, non-empty completion is kept; an absent or empty one is replaced by the fallback |
| Ai.FencedBody | backend/src/services/aiService.ts:48 | no capture exactly when no opening fence is followed by a closing one; otherwise the capture is the text between the first opening and the nearest closing after it |
| Ai.ExtractJson | backend/src/services/aiService.ts:48-51 | a ```` ```json ```` fence is used first, then a plain fence, then the whole content; the result is trimmed and has no white space at either end |
| Ai.QuestionsJson | backend/src/services/aiService.ts:46-51 | the text parsed for questions neither starts nor ends with white space |
| Ai.EvaluationJson | backend/src/services/aiService.ts:142-147 | the text parsed for an evaluation neither starts nor ends with white space |
| Ai.NotesText | backend/src/services/aiService.ts:94 | notes are the completion's content, or the empty text when there is none |
| Ai.MissingContentFallback | backend/src/services/aiService.ts:46-51 | a missing or empty completion parses as `[]` for questions and as `{}` for an evaluation |
| Ai.SameExtraction | backend/src/services/aiService.ts:144-147 | questions and evaluations extract the same text from any non-empty completion |
| Ai.JsonFenceWins | backend/src/services/aiService.ts:48 | a ```` ```json ```` fence wins even after an earlier plain fence, whose capture would have differed |
| Questions.TotalMarks | backend/src/controllers/questionController.ts:28 | with no negative marks the total is not negative; additivity and order independence are stated by the lemmas below |
| Questions.TotalMarksConcat | backend/src/controllers/questionController.ts:28 | the total over two runs of questions is the sum of their totals |
| Questions.UnmarkedAddsNothing | backend/src/controllers/questionController.ts:28 | a question without marks adds 0, wherever it stands |
| Questions.TotalMarksPermutation | backend/src/controllers/questionController.ts:28 | the total does not depend on the order of the questions |
| Questions.MarkedTotalAtLeastCount | backend/src/controllers/questionController.ts:28 | when every question has at least one mark, the total is at least the number of questions |
| Questions.PromptLanguage | backend/src/controllers/questionController.ts:24 | a present, non-empty language is passed on, otherwise "en" |
| Questions.PromptLanguageName | backend/src/controllers/questionController.ts:24 | questions are asked for in Hindi exactly when the request says "hi", and in English when it names no language |
| Questions.WithDefaultBloom | backend/src/models/QuestionPaper.ts:47-51 | a stored question always has a Bloom level: its own when it had one, else "understand", with nothing else changed |
| Questions.SavedQuestions | backend/src/models/QuestionPaper.ts:47-51 | the stored questions are the generated ones, in order, each with its Bloom default filled in |
| Questions.SavedQuestionsTotal | backend/src/controllers/questionController.ts:28 | filling in defaults keeps the total marks computed from the generated questions |
| Questions.NewPaper | backend/src/controllers/questionController.ts:31-41 | definition of the document built before the save; stated by Questions.NewPaperFacts |
| Questions.QuestionValid | backend/src/models/QuestionPaper.ts:25-52 | definition of the question schema's validators: known type, non-empty text and answer, marks of at least 1, and a known Bloom level when one is given |
| Questions.PaperValid | backend/src/models/QuestionPaper.ts:54-96 | definition of the paper schema's validators: non-empty board, subject and chapter, class from 6 to 12, known difficulty, and valid questions |
| Questions.NewPaperFacts | backend/src/controllers/questionController.ts:28-41 | a new paper lasts 180 minutes, its total is the sum of its questions' marks both before and after the defaults, a missing difficulty becomes "medium", every question gets a Bloom level, and a valid paper has at least one mark per question |
| Questions.StoredPaperFacts | backend/src/controllers/questionController.ts:31-43 | every stored paper lasts 180 minutes, is for a class from 6 to 12, has at least as many marks as questions, and gives each question one of the six known Bloom levels |
| Questions.OwnedIds | backend/src/controllers/questionController.ts:63-64 | the teacher's papers, exactly those, newest (highest id) first |
| Questions.OwnedCount | backend/src/controllers/questionController.ts:68 | the listing's count is the number of papers the teacher owns |
| Questions.PageOfIds | backend/src/controllers/questionController.ts:63-66 | a page of the newest-first list is a newest-first run of the teacher's ids |
| Questions.PapersOf | backend/src/controllers/questionController.ts:63 | the papers looked up by id, in the order of the ids |
| Questions.PaperStore.Create | backend/src/controllers/questionController.ts:12-53 | a generation failure or a paper the schema refuses answers 500 and stores nothing; otherwise the new paper, with the summed marks, 180 minutes and every missing Bloom level set to "understand", is stored under a fresh id and nothing else changes |
| Questions.PaperStore.GetById | backend/src/controllers/questionController.ts:88-103 | 404 exactly when no paper has the id, otherwise the stored paper with that id, whoever owns it |
| Questions.PaperStore.ListPapers | backend/src/controllers/questionController.ts:58-83 | a page below 1 answers 500; otherwise exactly the requested page of the teacher's own stored papers, newest first, at most `limit` of them, with the pagination block over the count of the teacher's papers |
| Questions.PaperStore.ListingShowsEveryPaper | backend/src/controllers/questionController.ts:58-83 | the teacher's `k`-th newest paper appears on page `k / limit + 1`, one of the reported pages, at position `k % limit` |
| Questions.PaperStore.Delete | backend/src/controllers/questionController.ts:143-163 | the paper is removed exactly when the id exists and the caller owns it, and no other paper changes; otherwise 404 and the store is unchanged |
| Helpers.Round | frontend/src/utils/helpers.ts:35 | `Math.round` gives the integer within one half of its argument, halves rounding up |
| Helpers.RoundMonotone | frontend/src/utils/helpers.ts:35 | rounding keeps order |
| Helpers.CalculatePercentage | frontend/src/utils/helpers.ts:34 | a total of 0 gives 0 |
| Helpers.PercentageError | frontend/src/utils/helpers.ts:35 | the result is a whole number of hundredths of a percent, within half a hundredth of the exact percentage |
| Helpers.PercentageBounds | frontend/src/utils/helpers.ts:33-36 | marks between none and the total give 0 to 100, and full marks give exactly 100 |
| Helpers.PercentageMonotone | frontend/src/utils/helpers.ts:35 | more marks over the same total never give a lower percentage |
| Helpers.Truncate | frontend/src/utils/helpers.ts:41-44 | a fitting text is returned unchanged; a longer one becomes its first `maxLength` characters (none for a negative length) followed by "..." |
| Helpers.TruncateIdempotent | frontend/src/utils/helpers.ts:41-44 | truncating twice with the same length is truncating once |
| Helpers.TruncateLength | frontend/src/utils/helpers.ts:41-44 | the result has at most `maxLength + 3` characters |

`getQuestionPaperById` does not check who owns the paper: any caller can read any paper by its
id. `Questions.PaperStore.GetById` models this as written. The delete handler, by contrast,
checks ownership.

A key-points slide is numbered by its position among all the kept sections, headed sections
included, so the numbers can skip. `Slides.SectionSlide` models this as written.

## Left out

- The language-model calls, `JSON.parse`, OCR, PDF generation and the slide-rendering library
  are foreign code. The model covers only the text handed to `JSON.parse` and the plan of
  slides. Styling, `writeFile` and the output path are not modelled.
- Prompt texts are not modelled, apart from the language name.
- The database is replaced by values, so the following are not modelled:
  - `populate`, casting of request fields, and `ObjectId` parsing (ids are `nat`, so the cast
    error on a malformed id, which answers 500, does not arise);
  - concurrency between requests;
  - the `created_at` stamp, which is a parameter.
- The order of the teacher's listing is modelled as creation order: ids increase with each
  creation, and the listing puts the highest id first.
- Questions.QuestionValid and Questions.PaperValid model the validators that can refuse a
  generated paper: required non-empty texts, `min: 1` marks, the class range, and the
  question-type, difficulty and Bloom-level enums. The schema defaults (difficulty "medium",
  Bloom level "understand", duration 180) are filled in before validation, as the schema does.
  The `required` checks on `teacher_id` and `total_marks` are not modelled: the handler
  always supplies both. Mongoose's casting of a non-string Bloom level is not modelled.
- The notes and answer-sheet controllers, authentication, route and middleware configuration,
  and `createPerformance` are outside this model. Their pagination and owner-checked delete
  follow the ones modelled here.
- Floating point is replaced by exact reals: `toFixed(2)`, float rounding, and the `NaN` or
  `Infinity` of a zero total.
- Performance.Analyze, Performance.RankedTopics and Performance.GetStudentAnalytics require
  every record to have a positive total, and every topic name's summed total over all
  entries to be positive. A single entry's total may be 0. In the other cases the source
  divides by zero without a guard: a record total of 0 makes its percentage `Infinity` or
  `NaN`, and so does a topic whose totals sum to 0.
- Pagination.Info, Pagination.PageOf, Performance.ListPerformanceRecords and
  Questions.PaperStore.ListPapers require a positive `limit`. A `limit` of 0 means "no limit"
  to the database, and `Math.ceil(total / 0)` is `Infinity`. Non-numeric `page` or `limit`
  become `NaN`; this is not modelled either.
- String lengths count code points, whereas JavaScript counts UTF-16 code units. This affects
  Helpers.Truncate for text outside the Basic Multilingual Plane.
- Questions.TotalMarks sums integer marks. A fractional or non-numeric mark from the completion
  is not modelled.
- Slides.Notes has a natural `classNum`, since the schema bounds the class to 6–12.
- Helpers.Truncate takes an integer `maxLength`. `substring` on a fractional length is not
  modelled.
