# Mihenk: a verified model of its grading, exam and screening core

Mihenk is a coding-education and exam system: an Express backend over PostgreSQL, a pool of grading
workers, and a React front end. This project models the parts of it that carry state, loops or
arithmetic behind a stated guarantee, and proves those guarantees for every input and every run.

| component | files |
|---|---|
| Similarity screening: scanner, 32-bit hash, winnowing, comparison, highlighting, class report | `Text`, `Keywords`, `Tokenizer`, `Literals`, `Editing`, `Reformatting`, `Edits`, `Winnowing`, `Similarity`, `Distinguishing`, `Highlight`, `ClassReport` |
| Random dealing, and several requests dealing at once | `Dealing`, `DealRaces` |
| The exam as a state machine, its invariants and what holds over runs; the handlers as methods | `ExamModel`, `ExamInvariants`, `ExamSafety`, `ExamSubmissions`, `ExamSealing`, `ExamAccess`, `ExamResults`, `AttemptWeights`, `ExamServer` |
| The tables by the requests of a run: who is enrolled, teaches and sits, what an exam says, what a submission shows | `ExamHistory`, `ExamRecords`, `SubmissionRecords` |
| The worker-pool supervisor and its processes | `WorkerPool`, `PoolProcesses` |
| Checkers, verdicts, rubric | `Normalizing`, `Checker`, `Judging`, `Grading` |
| One-time tokens, migrations | `AuthTokens`, `Migrations`, `MigrationOrder` |
| Shared helpers | `Options`, `Lists`, `Sorting`, `Counting`, `Histories` |

Code that changes state is a class or a method with the source's loops, proved against a function of
the old state (`ExamModel.Step`, `WorkerPool.Next`, `AuthTokens.Step`, `Migrations.CutRun`); what
holds over whole runs is proved about that function. Foreign calls are parameters: the random source,
a program run and the compiler's answer, the queue's acceptance of a job, `Number(...)` and
`toLowerCase()`, the regex checker's match, and the queue depth a tick reads.

`dafny verify dfyconfig.toml` checks everything.

## Where the code and its own words differ

The model follows the code. These are the places where a comment or document promises more:

- `backend/src/routes/exams.routes.js:437-439` says a late resubmission does not dock an on-time
  answer. It does when it passes more cases and is worth less after its penalty
  (`ExamResults.WhenResubmissionDocks`, `ResubmissionCanDock`).
- The best attempt is chosen by cases passed although it is marked by weight
  (`ExamResults.HeavierAttemptCanLose`). That is harmless exactly when all cases of the problem weigh
  the same (`AttemptWeights.BestWeightWinsExactlyWhen`).
- `backend/src/routes/exams.routes.js:395-397` says someone taken off a roster loses their extra time.
  Only the deal goes (`ExamSafety.RosterErasesOthersDeals`).
- Creating an exam has no request schema, so a negative number of problems per student is stored and
  deals all but that many (`ExamSafety.FreshDealSize`, `EmptyDealIsReachable`).
- `backend/src/services/examSession.service.js:48-50` says the first deal wins when an exam is opened
  twice at once. Each insert commits by itself, so two requests that look before either inserts leave
  both draws, and one that looks between two inserts is settled on part of a deal
  (`DealRaces.TwoDealsUnite`, `LookFindsPart`; `FirstDealWinsExactlyWhen` says when the claim holds).
- `backend/src/services/similarity.service.js:8-13` claims robustness to reformatting. A blank after a
  backslash in a literal left open can close it (`Reformatting.OneBlankCloses`;
  `ReformatKeepsNormsExactlyWhen` says exactly where).
- `backend/src/routes/exams.routes.js:205-208` says nothing is listed before the exam opens. The
  progress rows of the page are, once an exam that had started is moved into the future
  (`ExamSealing.MovedExamStillNames`).
- `backend/src/services/authToken.service.js:16-18` says a new token invalidates the outstanding ones.
  Two interleaved issues leave two live (`AuthTokens.InterleavedIssuesLeaveTwo`).
- `backend/src/workerPool.js:141-142` looks at the stop flag only before it waits, so a tick under way
  can still grow a stopped pool (`WorkerPool.GrowthAfterStop`, `StoppedPoolCanGrow`).
- `backend/scripts/migrate.js:8` says the status listing changes nothing; it creates the bookkeeping
  table. Line 51 says the base schema never fires on a database that holds anything; the check and the
  load are separate steps, so two runners can (`Migrations.TwoRunnersCanDestroy`,
  `DestroysExactlyWhenRaced`). For the same reason the filename order of lines 4-5 can be broken, if a
  base schema does not record every file (`MigrationOrder.TwoRunnersCanSkip`,
  `OutOfOrderExactlyWhenLost`); the shipped one does (`AppliedInOrder`).
- Normalizing output is not idempotent after a stray carriage return
  (`Normalizing.IdempotentExactlyWhen`).

## Model

| member | source | states |
|---|---|---|
| `Tokenizer.MatchLen` | backend/src/services/similarity.service.js:76-78 | the ordered alternatives of both patterns; a match is never longer than the text, and there is none exactly at white space |
| `Tokenizer.TokenizeWith` | backend/src/services/similarity.service.js:92-120 | the loop over the matches computes the left-to-right scan, with the drop rule of line 103 as written (a lone `#` in C-style code and Python's `//` leave no token) |
| `Tokenizer.Tokenize` | backend/src/services/similarity.service.js:92-120 | the pattern and the keyword set are those of the language |
| `Tokenizer.ScanWellSpanned` | backend/src/services/similarity.service.js:92-120 | token spans are non-empty, in bounds, disjoint and in source order, for every text |
| `Literals.DocstringIsOneToken` | backend/src/services/similarity.service.js:67-78 | a docstring, in either kind of triple quotes, is one `STR`, whatever prose it holds |
| `Literals.LineCommentDropped` | backend/src/services/similarity.service.js:92-103 | a line comment contributes no token, whether a line feed or the end of the text follows |
| `Literals.BlockCommentDropped` | backend/src/services/similarity.service.js:92-103 | a closed block comment contributes no token in the C-style languages |
| `Literals.WordIsOneToken` | backend/src/services/similarity.service.js:112-115 | the longest run of word units is one token: the word itself if it is a keyword, else `ID` |
| `Literals.NumberIsOneToken` | backend/src/services/similarity.service.js:108-111 | digits, with or without a fraction, are one `NUM` |
| `Literals.StringIsOneToken` | backend/src/services/similarity.service.js:104-107 | a string in either quotes, with any escapes, is one `STR` |
| `Literals.SpaceDropped` | backend/src/services/similarity.service.js:76-97 | white space leaves no token |
| `Literals.OperatorIsOneToken` | backend/src/services/similarity.service.js:76-78 | an operator of two units is one token, kept as it is, except that Python's `//` leaves none |
| `Literals.OperatorsListed` | backend/src/services/similarity.service.js:76-78 | the two-unit operators are the six and the seventeen of the two patterns |
| `Literals.SymbolIsOneToken` | backend/src/services/similarity.service.js:116-117 | every other unit is a token by itself |
| `Editing.ScanSwap` | backend/src/services/similarity.service.js:76-120 | if no search that fails in `c` succeeds in `c'`, and no lone quote before is a trap, replacing one by the other keeps the normalized stream |
| `Edits.RenameKeepsNorms` | backend/src/services/similarity.service.js:80-91 | renaming an identifier occurrence to any word that is no keyword keeps the normalized stream of the whole text |
| `Reformatting.OpensAgainExactly` | backend/src/services/similarity.service.js:76-78 | when skipping one unit hides the end of a literal: after an even run of backslashes comes its quote, with no other later on the line, or a bare line terminator |
| `Reformatting.ReformatReadsAlikeExactlyWhen` | backend/src/services/similarity.service.js:8-13 | white space in front of a token leaves every token as it was, only moved, exactly when no lone quote before it is trapped: its body escapes up to the backslash in front, the blanks stay on the line, and the rest opens again |
| `Reformatting.ReformatKeepsNorms` | backend/src/services/similarity.service.js:8-13 | outside a trap the normalized stream is kept |
| `Reformatting.ReformatKeepsNormsExactlyWhen` | backend/src/services/similarity.service.js:8-13 | and only there: in a trap the new text has fewer tokens, unless a bare carriage return or the like follows the backslashes |
| `Reformatting.OneBlankCloses` | backend/src/services/similarity.service.js:8-13 | both languages: one blank turns three tokens into one |
| `Reformatting.BareTerminatorCanCoincide` | backend/src/services/similarity.service.js:8-13 | the exception is real: a trapped text with a bare carriage return whose two streams coincide |
| `Edits.RespaceKeepsNorms` | backend/src/services/similarity.service.js:8-13 | replacing the gap in front of a token by another keeps the normalized stream, if no line is joined to the one before |
| `Edits.AnnotateKeepsNorms` | backend/src/services/similarity.service.js:8-13 | so does putting a comment line in front of any token, if the comment holds no docstring delimiter or comment end |
| `Winnowing.HornerWraps` | backend/src/services/similarity.service.js:122-129 | wrapping to 32 bits at every step equals wrapping the exact polynomial once |
| `Winnowing.HashString` | backend/src/services/similarity.service.js:122-129 | the loop computes that polynomial modulo 2^32 as a signed integer |
| `Distinguishing.PolynomialIsSum` | backend/src/services/similarity.service.js:122-129 | what is hashed is the sum of the units, each times 31 to the power of its distance from the end |
| `Distinguishing.OneUnitChangesHash` | backend/src/services/similarity.service.js:122-129 | two texts of equal length that differ in exactly one unit never hash alike |
| `Distinguishing.HashOfId` | backend/src/services/similarity.service.js:122-129 | `ID` hashes to 2331 |
| `Distinguishing.GramTextExact` | backend/src/services/similarity.service.js:139-144 | the text hashed for a gram of a source determines its k normalized tokens |
| `Winnowing.BuildGrams` | backend/src/services/similarity.service.js:139-144 | gram `i` hashes tokens i to i+k-1 and spans from the first to the last of them |
| `Highlight.GramSpans` | backend/src/services/similarity.service.js:139-144 | a gram spans its own k tokens and no other, from the start of one token to the end of one |
| `Winnowing.WindowMin` | backend/src/services/similarity.service.js:154-157 | the inner loop finds the rightmost minimum of the window |
| `Winnowing.SelectionMonotone` | backend/src/services/similarity.service.js:151-162 | rightmost minima of later windows never lie further left |
| `Winnowing.NothingBetween` | backend/src/services/similarity.service.js:151-162 | no window at all selects a gram strictly between the selections of two neighbouring windows |
| `Winnowing.Winnow` | backend/src/services/similarity.service.js:136-164 | the loop with its single `prevSelected` returns exactly the grams that some window selects, each once and in order; every gram when the document is too short for a window |
| `Similarity.ComputeFingerprint` | backend/src/services/similarity.service.js:167-171 | token count and fingerprints of the source with the shipped sizes 5 and 4 |
| `Similarity.SelectionCovers` | backend/src/services/similarity.service.js:146-163 | selected positions strictly increase, each is the rightmost minimum of some window, and every window holds one |
| `Similarity.SelectionGaps` | backend/src/services/similarity.service.js:146-163 | consecutive selections are at most `w` apart, with none missing at either end |
| `Similarity.DetectionGuarantee` | backend/src/services/similarity.service.js:23-24 | two streams sharing k+w-1 equal tokens at any offsets are reported with a positive shared count, also when a document is too short for a window |
| `Similarity.HashesByNorms` | backend/src/services/similarity.service.js:136-171 | the set of fingerprint hashes depends on the normalized stream alone |
| `Similarity.FingerprintExists` | backend/src/services/similarity.service.js:136-149 | a stream has a fingerprint exactly when it has at least k tokens |
| `Similarity.EightTokensSuffice` | backend/src/services/similarity.service.js:19-24 | with the shipped sizes, eight equal tokens in a row anywhere in two sources always show |
| `Distinguishing.ComparisonExact` | backend/src/services/similarity.service.js:179-189 | the shared set is the intersection, each percentage its share of one hash set, the similarity the larger of the two |
| `Distinguishing.ExtremeScores` | backend/src/services/similarity.service.js:179-189 | 0 exactly when no hash is shared, 100 exactly when one set contains the other |
| `Distinguishing.UnrelatedScoreZero` | backend/src/services/similarity.service.js:136-189 | streams none of whose grams hash alike score 0 |
| `Distinguishing.OneOperatorChanged` | backend/src/services/similarity.service.js:136-189 | a fragment of one gram with one operator replaced scores 0 against the original |
| `Similarity.DisguisedCopyScores100` | backend/src/services/similarity.service.js:8-13 | after any chain of renamings, blanks added, removed or replaced and comment lines put in or taken out, a copy scores 100% in both directions |
| `Highlight.SharedSpansExact` | backend/src/services/similarity.service.js:192-196 | the spans to be merged are those of the fingerprints with a shared hash and no others |
| `Highlight.MergeStep` | backend/src/services/similarity.service.js:198-206 | one round of the merging loop keeps the merged list a correct merge of the spans seen so far |
| `Highlight.GetMatchedSpans` | backend/src/services/similarity.service.js:192-208 | strictly increasing ranges at least two characters apart, beginning and ending where spans do, covering exactly the spans and the single characters between them |
| `Highlight.FingerprintsWithin` | backend/src/services/similarity.service.js:136-171 | every fingerprint of a source text spans a non-empty range of that text |
| `Highlight.MatchedSpansOf` | backend/src/services/similarity.service.js:192-208 | hence the ranges of any source text, for any shared set, lie within it |
| `Highlight.HighlightedCode` | frontend/src/components/CodeDiffView.jsx:6-14 | the segments concatenate to the code, each character marked exactly when a span covers it, and no segment is empty |
| `ClassReport.MedianSplits` | backend/src/services/similarity.service.js:210-215 | at most half of any list of values lies above its median |
| `ClassReport.MedianExact` | backend/src/services/similarity.service.js:210-215 | the median lies halfway between the values of the two middle ranks |
| `ClassReport.RankIsUnique` | backend/src/services/similarity.service.js:210-215 | a rank has one value |
| `ClassReport.MarkNotable` | backend/src/services/similarity.service.js:255-257 | the marking loop sets each flag by the two thresholds |
| `ClassReport.ComputeClassReport` | backend/src/services/similarity.service.js:225-261 | the nested loops, the marking and the sort give the specified report and its rounded baseline |
| `ClassReport.EachPairOnce` | backend/src/services/similarity.service.js:231-249 | every unordered pair of submissions occurs exactly once, n(n-1)/2 in all |
| `ClassReport.AtMostHalfNotable` | backend/src/services/similarity.service.js:217-224 | never more than half of all pairs are notable |
| `ClassReport.NoneNotableWhenEqual` | backend/src/services/similarity.service.js:217-224 | when all pairs score alike none is notable, however high the score |
| `ClassReport.ReportShape` | backend/src/services/similarity.service.js:251-260 | highest similarity first, and a pair notable exactly from 60 and from 20 above the median on |
| `ClassReport.ReportDescribes` | backend/src/services/similarity.service.js:231-249 | every line names two submissions and their authors and shows their comparison to the nearest tenth |
| `Sorting.SortIsStable` | backend/src/services/similarity.service.js:259-259 | sorting keeps elements with equal keys in their order |
| `Dealing.PickRandom` | backend/src/services/examSession.service.js:66-73 | the in-place swap loop over an array computes the shuffle, cut and sort specified by its draws |
| `Dealing.ShuffleTraces` | backend/src/services/examSession.service.js:68-71 | each position ends up with the item traced back through the swaps to where its draw pointed |
| `Dealing.DealShape` | backend/src/services/examSession.service.js:66-73 | from distinct items the result is strictly increasing, of the requested size and drawn from the items |
| `Dealing.ShuffleUnshuffle` | backend/src/services/examSession.service.js:66-72 | every arrangement is reached by the draws read back from it |
| `Dealing.UnshuffleShuffle` | backend/src/services/examSession.service.js:66-72 | and those draws are the only ones |
| `Dealing.ShuffleIsBijection` | backend/src/services/examSession.service.js:66-72 | choice vectors and arrangements correspond one to one |
| `Dealing.ExchangeKeepsCount` | backend/src/services/examSession.service.js:66-72 | exchanging one dealt item for another loses no choice vector |
| `Dealing.SubsetsEquallyLikely` | backend/src/services/examSession.service.js:66-72 | for any two subsets of one size, equally many choice vectors make the answer hold the one and the other |
| `Dealing.EverySubsetIsDealt` | backend/src/services/examSession.service.js:66-73 | every subset of the size asked for is the answer for some draws in [0, 1) |
| `ExamInvariants.StepInv` | backend/src/routes/exams.routes.js:24-62 | every request keeps: paper without repeats and inside the exam's course, stored deals on the paper, constraints of the tables, submissions in order of id and time |
| `ExamInvariants.RunInv` | backend/src/routes/exams.routes.js:24-62 | hence every state of every run has it |
| `ExamSafety.OnlyTeachersAdminister` | backend/src/routes/exams.routes.js:65-65 | an administrative request from anyone else is refused and changes nothing |
| `ExamSealing.PageReveals` | backend/src/routes/exams.routes.js:205-257 | an exam page names exactly the problems dealt, once the exam has started, and those the student has submitted under it, started or not |
| `ExamSealing.RevealsOnlyAccessible` | backend/src/services/courseAccess.service.js:221-230 | whatever a request gives a student (listing, detail, exam page with its progress rows, submission) passes the one access rule or is a problem they already submitted under the exam they open |
| `ExamSealing.SealedOverRuns` | backend/src/services/courseAccess.service.js:92-103 | in every run a student is given a problem on some paper only if an exam holding it has started and its roster is empty or names them, or if they submitted it under the exam they open at a moment of that run when they could read it |
| `ExamSealing.NoTimeReveals` | backend/src/services/courseAccess.service.js:60-103 | if every exam holding the problem has a roster without the student, nothing newly reveals it to them until a teacher acts |
| `ExamSealing.MovedExamStillNames` | backend/src/routes/exams.routes.js:235-243 | moving a started exam into the future seals its problems, and its page still names those a student had submitted |
| `ExamAccess.ReadableExactlyWhen` | backend/src/services/courseAccess.service.js:28-115 | in every state reading, listing and practising let the same problems through: for a student, those of their courses on no paper, or on the paper of an exam begun whose roster is empty or seats them; for a teacher, those of the courses they own or assist |
| `ExamAccess.OpensExactlyWhen` | backend/src/services/courseAccess.service.js:60-68 | an exam page is given exactly to those teaching its course and to enrolled students whom its roster does not leave out; before the start it shows a student nothing |
| `ExamAccess.SubmitExactlyWhen` | backend/src/routes/submissions.routes.js:35-145 | the answer to any submission, by readability, archive, roster, personal window, deal, cases and queue, in that order |
| `ExamSafety.AccessPersists` | backend/src/services/courseAccess.service.js:92-115 | without a teacher's request, what a student can read stays readable |
| `ExamSafety.FreshDealSize` | backend/src/services/examSession.service.js:39-47 | a fresh deal is that many distinct problems of the paper; a negative number, which creation lets through, leaves that many off |
| `ExamSafety.FreshDealIsFair` | backend/src/services/examSession.service.js:39-47 | every set of that many problems of the paper is dealt by some draws, and any two of them by equally many choice vectors |
| `SubmissionRecords.AssignedExact` | backend/src/services/examSession.service.js:25-63 | the whole paper without randomising; else a fresh set of the stated size, stored; else the one stored |
| `ExamSafety.NegativePerStudentIsStored` | backend/src/routes/exams.routes.js:65-141 | creating an exam accepts and stores a negative number per student, and every deal shrinks by it |
| `ExamSafety.EmptyDealIsReachable` | backend/src/routes/exams.routes.js:65-141 | three requests on an empty installation reach an exam on one problem that deals none |
| `ExamSafety.AssignSettles` | backend/src/services/examSession.service.js:25-63 | asking again, with any draws, gives the same problems and changes nothing |
| `ExamSafety.EditKeepsDealOnPaper` | backend/src/routes/exams.routes.js:316-322 | an edit leaves of each stored deal exactly the part still on the paper |
| `ExamSafety.RosterErasesOthersDeals` | backend/src/routes/exams.routes.js:385-402 | a roster change erases exactly the deals of students not named (all, when the roster is emptied) and leaves extra time in place |
| `ExamSafety.DealIsStable` | backend/src/services/examSession.service.js:17-24 | over any run a student keeps the same problems until that exam is edited, its roster set, or a problem deleted |
| `DealRaces.DealersLookedFirst` | backend/src/services/examSession.service.js:41-57 | statement by statement, the requests that deal are those that looked before the first row was inserted |
| `DealRaces.FinalDeal` | backend/src/services/examSession.service.js:25-63 | under any interleaving the deal left is the union of what exactly those requests drew |
| `DealRaces.AgreeExactlyWhen` | backend/src/services/examSession.service.js:48-50 | all requests answer the same problems exactly when no row is added once one of them has answered |
| `DealRaces.FirstDealWinsExactlyWhen` | backend/src/services/examSession.service.js:48-50 | every request answers what the first one drew, whatever is drawn, exactly when none looks between the first one's look and its last insert |
| `DealRaces.TwoDealsUnite` | backend/src/services/examSession.service.js:48-50 | two requests that look before either inserts leave the student both draws |
| `DealRaces.LookFindsPart` | backend/src/services/examSession.service.js:41-45 | a request that looks between two inserts is settled on part of a deal |
| `DealRaces.AloneIsAssign` | backend/src/services/examSession.service.js:25-63 | a request that is not interrupted does what the exam machine takes it to do in one step |
| `ExamSubmissions.WindowExact` | backend/src/services/examSession.service.js:123-148 | open exactly from the start to deadline plus extra time plus late window, late exactly past the deadline plus extra time |
| `ExamSubmissions.MoreTimeNeverHurts` | backend/src/services/examSession.service.js:118-121 | more extra time never closes the window and never makes an on-time submission late |
| `ExamSubmissions.SubmitAnswer` | backend/src/routes/submissions.routes.js:46-94 | which answer the submit endpoint gives, by visibility, archive, roster, window and deal |
| `ExamSubmissions.PathsAgree` | backend/src/routes/submissions.routes.js:68-94 | the problems shown on a started exam are readable, and submission answers "not part of your exam" for exactly the others |
| `ExamSubmissions.PathsAgreeInEveryRun` | backend/src/routes/exams.routes.js:185-233 | the agreement holds in every reachable state |
| `ExamSubmissions.PathsAgreeLater` | backend/src/routes/submissions.routes.js:68-94 | it outlasts the page: over any run that leaves the exam, its roster and its problems alone |
| `ExamSubmissions.StampNeverChanges` | backend/src/db/schema.sql:226-231 | no request changes the student, problem, exam, time, lateness or penalty of a stored submission; only deleting its problem removes it |
| `ExamSubmissions.EverySubmissionWasAccepted` | backend/src/routes/submissions.routes.js:35-118 | every stored submission of every run was accepted by one request of that run, with the lateness and penalty the rules then in force demand |
| `ExamSubmissions.StudentExamSubmission` | backend/src/routes/submissions.routes.js:56-118 | for a student's exam submission: enrolled, sitting, on a dealt problem of the paper, course open, inside the window |
| `ExamSubmissions.EvenPaperIsWorth100` | backend/src/routes/exams.routes.js:24-35 | an evenly divided paper adds up to 100 and no problem is worth more than a point above another |
| `ExamHistory.AnswersExactly` | backend/src/routes/exams.routes.js:65-141 | every administrative request, and joining, is accepted exactly under its stated rule and changes nothing when it is not |
| `ExamRecords.EnrolledExactlyWhen` | backend/src/routes/courses.routes.js:242-385 | over every run: enrolled are exactly those who joined or were imported and have not been unenrolled since |
| `ExamRecords.ImportReports` | backend/src/routes/courses.routes.js:242-300 | each listed address is reported as newly enrolled, unknown or no student by what it is |
| `ExamRecords.AssistsExactlyWhen` | backend/src/routes/courses.routes.js:155-233 | assistants are exactly those appointed and not dismissed since |
| `ExamRecords.OwnerExactlyWhen` | backend/src/routes/courses.routes.js:48-68 | a course is owned by the teacher who made it, for good |
| `ExamRecords.ArchivedAsLastSet` | backend/src/routes/courses.routes.js:93-116 | a course is archived or open as last set |
| `ExamRecords.SeatedExactlyWhen` | backend/src/routes/exams.routes.js:367-415 | on a roster are exactly those the last roster set for the exam named |
| `ExamRecords.ExtraAsLastGranted` | backend/src/routes/exams.routes.js:519-554 | a student's extra minutes are those last granted to that student for that exam |
| `ExamRecords.ScheduleAsLastDrafted` | backend/src/routes/exams.routes.js:268-336 | an exam's times, late window, penalty and number per student are those of the last draft accepted |
| `ExamRecords.WindowAsRecorded` | backend/src/services/examSession.service.js:123-148 | at every moment of every run a student's window is that of the last draft, moved by the minutes last granted to them |
| `ExamRecords.PointsAsLastDrafted` | backend/src/routes/exams.routes.js:24-35 | a problem is on the paper, with its points, as the last draft says, unless deleted since |
| `ExamRecords.OrderAsLastDrafted` | backend/src/routes/exams.routes.js:24-35 | the paper keeps the order of the last draft |
| `ExamRecords.ProblemAsCreated` | backend/src/routes/problems.routes.js:182-229 | a problem stays in the course it was created in until it is deleted |
| `ExamRecords.CasesMoveByOne` | backend/src/routes/problems.routes.js:232-284 | only adding and deleting test cases moves their number, by one |
| `SubmissionRecords.SubmissionStored` | backend/src/routes/submissions.routes.js:105-140 | a row is stored exactly when the submission is accepted or refused by the queue alone, after all others and with the data of the request |
| `SubmissionRecords.GradingExact` | backend/src/worker.js:120-135 | grading writes the outcome to the row of its submission, with the weights, and to no other |
| `SubmissionRecords.ShowsLastGrading` | backend/src/worker.js:120-135 | over every run each stored submission shows its last grading, or nothing if there was none |
| `SubmissionRecords.DeletionExact` | backend/src/routes/problems.routes.js:218-229 | deleting a problem removes every row that names it and nothing else |
| `SubmissionRecords.OverrideAsLastSet` | backend/src/routes/exams.routes.js:557-608 | a mark is overridden as last set for that student, exam and problem, unless taken back |
| `SubmissionRecords.PageExact` | backend/src/routes/exams.routes.js:205-257 | the page shows some rows of the paper in its order, those dealt; the student's progress; and the deadline up to which they are on time |
| `SubmissionRecords.ProgressIs` | backend/src/routes/exams.routes.js:235-243 | for each problem tried, the most cases passed and the most there were |
| `ExamServer.Server.ProblemsBelongToCourse` | backend/src/routes/exams.routes.js:38-44 | comparing two counts decides whether every named problem exists and is in the course |
| `ExamServer.Server.RosterNamesEnrolledStudents` | backend/src/routes/exams.routes.js:53-62 | comparing two counts decides whether all named are students enrolled in the course |
| `ExamServer.Server.WritePaper` | backend/src/routes/exams.routes.js:24-35 | the insert loop writes the specified paper, or is refused by the key exactly when a problem repeats |
| `ExamServer.Server.ReplaceRoster` | backend/src/routes/exams.routes.js:388-394 | the roster rows of the exam are deleted and written again, one per name |
| `ExamServer.Server.CreateExam` | backend/src/routes/exams.routes.js:65-141 | new state and answer of creating an exam, for every input; the invariant is kept |
| `ExamServer.Server.EditExam` | backend/src/routes/exams.routes.js:268-336 | new state and answer of editing an exam |
| `ExamServer.Server.SetRoster` | backend/src/routes/exams.routes.js:367-415 | new state and answer of replacing the roster |
| `ExamServer.Server.GrantTime` | backend/src/routes/exams.routes.js:519-554 | new state and answer of granting extra time, and of removing it with zero |
| `ExamServer.Server.SetOverride` | backend/src/routes/exams.routes.js:557-586 | new state and answer of overriding a grade |
| `ExamServer.Server.DropOverride` | backend/src/routes/exams.routes.js:589-608 | new state and answer of removing an override |
| `ExamServer.Server.RecordDeal` | backend/src/services/examSession.service.js:51-57 | the insert loop adds exactly the chosen rows |
| `ExamServer.Server.AssignedProblemIds` | backend/src/services/examSession.service.js:25-63 | deals at most once and returns the settled deal |
| `ExamServer.Server.OpenExam` | backend/src/routes/exams.routes.js:185-262 | what each kind of user is shown: problems, the student's progress rows and own deadline; and the deal recorded on the way |
| `ExamServer.Server.InsertSubmission` | backend/src/routes/submissions.routes.js:99-145 | the row is stored queued, and marked failed when the queue refuses the job |
| `ExamServer.Server.Submit` | backend/src/routes/submissions.routes.js:35-145 | new state and answer of the whole chain of checks |
| `ExamServer.Server.CreateCourse` | backend/src/routes/courses.routes.js:48-68 | new state and answer of creating a course |
| `ExamServer.Server.SetArchived` | backend/src/routes/courses.routes.js:93-116 | new state and answer of archiving or reopening a course |
| `ExamServer.Server.AddStaff` | backend/src/routes/courses.routes.js:155-210 | new state and answer of appointing an assistant, with every refusal |
| `ExamServer.Server.RemoveStaff` | backend/src/routes/courses.routes.js:213-233 | new state and answer of standing an assistant down |
| `ExamServer.Server.Join` | backend/src/routes/courses.routes.js:303-330 | new state and answer of joining by code |
| `ExamServer.Server.EnrolListed` | backend/src/routes/courses.routes.js:242-300 | the import loop fills its three lists and enrols exactly the students named |
| `ExamServer.Server.Import` | backend/src/routes/courses.routes.js:242-300 | new state and answer of a roster import |
| `ExamServer.ImportPartition` | backend/src/routes/courses.routes.js:242-300 | the number reported as already enrolled is the number of listed students who were |
| `ExamServer.ImportIsIdempotent` | backend/src/routes/courses.routes.js:242-300 | importing the same list again enrols nobody and reports everyone found as already enrolled |
| `ExamServer.Server.Unenrol` | backend/src/routes/courses.routes.js:362-385 | new state and answer of unenrolling |
| `ExamServer.Server.CreateProblem` | backend/src/routes/problems.routes.js:81-179 | new state and answer of creating a problem with its test cases |
| `ExamServer.Server.DeleteProblem` | backend/src/routes/problems.routes.js:218-229 | the problem goes with every paper row, deal, submission and override that references it |
| `ExamServer.Server.AddTestCase` | backend/src/routes/problems.routes.js:232-267 | new state and answer of adding a test case |
| `ExamResults.BestIsUnique` | backend/src/routes/exams.routes.js:433-441 | the selected attempt is the only one that nothing beats by (cases passed, then earlier) and that beats all before it |
| `SubmissionRecords.MarkExact` | backend/src/routes/exams.routes.js:454-478 | the mark of some attempts: the weights of the best one, or else cases passed of the most there were; its penalty; an override over all |
| `ExamResults.LaterAttemptKeepsGrade` | backend/src/routes/exams.routes.js:426-480 | a further attempt that passes no more cases changes neither score, lateness nor penalty |
| `ExamResults.GradingAnotherKeepsGrade` | backend/src/routes/exams.routes.js:426-480 | nor does grading an attempt that comes out no better than the best |
| `ExamResults.ResubmissionKeepsGrade` | backend/src/routes/exams.routes.js:426-480 | in every reachable state, submitting again and being graded with no more cases passed leaves score, lateness and penalty as they were |
| `ExamResults.WhenResubmissionDocks` | backend/src/routes/exams.routes.js:437-439 | a later attempt lowers the grade exactly when it passes more cases and its own worth, less its own penalty, is below that of the best one |
| `ExamResults.ResubmissionCanDock` | backend/src/routes/exams.routes.js:437-439 | a concrete case: five of ten on time, six of ten late at 50%, grade 3 |
| `ExamResults.HeavierAttemptCanLose` | backend/src/routes/exams.routes.js:430-434 | attempts are chosen by cases passed, so one with far more weight can lose |
| `AttemptWeights.NeverLosesExactlyWhen` | backend/src/routes/exams.routes.js:430-434 | over a set of possible results, the automatic score is always the largest weight earned exactly when passing at least as many cases never means earning less |
| `AttemptWeights.MonotoneExactlyWhenEqual` | backend/src/services/codeExecution.service.js:336-345 | for the results the cases of a problem allow, that is so exactly when all cases weigh the same |
| `AttemptWeights.BestWeightWinsExactlyWhen` | backend/src/routes/exams.routes.js:430-434 | so the automatic score is always the largest weight earned exactly when all cases of the problem weigh the same |
| `AttemptWeights.GradingGives` | backend/src/services/codeExecution.service.js:358-380 | grading gives only results the weights of the cases allow |
| `AttemptWeights.GradingCanGive` | backend/src/services/codeExecution.service.js:358-380 | and every one of them is the grading of some outcome of the cases |
| `ExamResults.NeverDocksMoreThanStated` | backend/src/routes/exams.routes.js:461-463 | the penalised score is the least whole number that loses no more than the stated percentage |
| `ExamResults.PenalisedInRange` | backend/src/routes/exams.routes.js:461-463 | it lies between 0 and the automatic score, and equals it without a penalty |
| `ExamResults.PenalisedMonotone` | backend/src/routes/exams.routes.js:461-463 | a better score or a smaller penalty never yields less |
| `ExamResults.OverrideReplacesAndRestores` | backend/src/routes/exams.routes.js:557-608 | an override is the final score and touches no other mark; removing it restores the automatic one |
| `ExamResults.MarksStandStill` | backend/src/db/schema.sql:226-231 | a mark moves only by the student's own submission, its grading, an override, or deletion of the problem: no later edit of exam, roster, penalty, times or extra time moves it |
| `ExamResults.PenaltyIsPercentage` | backend/src/db/schema.sql:176-179 | in every run every stored penalty lies between 0 and 100, and is 0 on time |
| `ExamResults.MarksInRange` | backend/src/routes/exams.routes.js:454-478 | in every reachable state a mark without override lies between 0 and the automatic score and loses no more than its penalty says |
| `WorkerPool.DesiredIsLeast` | backend/src/workerPool.js:45-49 | the target is the least permitted size that is not saturated by the backlog, or the largest permitted one |
| `WorkerPool.NextSound` | backend/src/workerPool.js:110-179 | every event keeps processes distinct, the quiet count below its threshold and, until a stop, the size within bounds |
| `WorkerPool.SizeAlwaysInBounds` | backend/src/workerPool.js:110-188 | over any run of ticks (also overlapping), failed reads, crashes and drained exits the size stays between min and max |
| `WorkerPool.ShrinksArePaidFor` | backend/src/workerPool.js:167-177 | shrinks times `scaleDownAfter` never exceed the low ticks |
| `WorkerPool.ComesDown` | backend/src/workerPool.js:141-179 | from a larger pool, the exact distance to the target after any number of readings |
| `WorkerPool.Converges` | backend/src/workerPool.js:141-179 | under a constant backlog the target is reached within (size - target) * scaleDownAfter readings, and kept |
| `WorkerPool.GrowsAtOnce` | backend/src/workerPool.js:159-165 | from a smaller pool the first reading reaches the target |
| `WorkerPool.StoppedRun` | backend/src/workerPool.js:141-196 | after a stop with no tick under way nothing grows the pool |
| `WorkerPool.GrowthAfterStop` | backend/src/workerPool.js:141-196 | after a stop the pool can still grow exactly when a tick that began before is under way and there is room |
| `WorkerPool.StoppedPoolCanGrow` | backend/src/workerPool.js:141-196 | and a fresh pool, one tick waiting when it is stopped, is in that state whenever min < max |
| `PoolProcesses.ProcessesAccounted` | backend/src/workerPool.js:110-134 | over every run each process ever forked is at work or draining, or has exited, and never both |
| `PoolProcesses.OldestStops` | backend/src/workerPool.js:127-134 | a tick that shrinks the pool tells exactly one worker to stop, the oldest |
| `WorkerPool.Supervisor.SpawnOne` | backend/src/workerPool.js:110-125 | adds one process to the map |
| `WorkerPool.Supervisor.OnExit` | backend/src/workerPool.js:114-121 | removes the process and replaces it when the pool fell below its minimum |
| `WorkerPool.Supervisor.StopOne` | backend/src/workerPool.js:128-134 | drains the oldest process |
| `WorkerPool.Supervisor.BeginTick` | backend/src/workerPool.js:141-142 | a stopped supervisor begins no tick |
| `WorkerPool.Supervisor.ResumeTick` | backend/src/workerPool.js:143-179 | grows at once by a loop, shrinks by one after enough quiet ticks, or rests |
| `WorkerPool.Supervisor.Start` | backend/src/workerPool.js:181-188 | starts with `min` processes |
| `WorkerPool.Supervisor.Stop` | backend/src/workerPool.js:190-196 | raises the flag and leaves the map |
| `Normalizing.NormalizeIsCanonical` | backend/src/services/checker.service.js:73-81 | normalizing joins the canonical lines, which can be read back from the result |
| `Normalizing.SameWhenLinesAgree` | backend/src/services/checker.service.js:73-81 | two outputs normalize alike exactly when their lines agree after folding line endings, stripping trailing blanks and dropping trailing empty lines |
| `Normalizing.TidyExactlyWhenFixed` | backend/src/services/checker.service.js:74-81 | the texts left as they are: no CR LF, no blank at the end of a line, no line feed at the end |
| `Normalizing.TrailingBlankIgnored` | backend/src/services/checker.service.js:74-81 | a blank in front of a line feed or at the end is ignored |
| `Normalizing.TrailingBreakIgnored` | backend/src/services/checker.service.js:74-81 | a line feed at the end is ignored |
| `Normalizing.CrLfIsLf` | backend/src/services/checker.service.js:74-81 | a CR LF counts as LF |
| `Normalizing.IdempotentExactlyWhen` | backend/src/services/checker.service.js:73-81 | normalizing is idempotent on a text exactly when no canonical line but the last ends in a carriage return |
| `Normalizing.IdempotentOnCrLf` | backend/src/services/checker.service.js:73-81 | in particular when every CR is followed by LF |
| `Normalizing.StrayCrNotIdempotent` | backend/src/services/checker.service.js:73-81 | but not on CR CR LF A |
| `Checker.SameMultiset` | backend/src/services/checker.service.js:93-104 | the counting map decides multiset equality, both ways |
| `Checker.CheckFloat` | backend/src/services/checker.service.js:122-151 | passes exactly when the token lists agree pairwise; otherwise names the first disagreement and its kind |
| `Judging.WordsExact` | backend/src/services/checker.service.js:83-85 | the words of a text are the runs between white space that it reads as, and no others |
| `Judging.FloatExact` | backend/src/services/checker.service.js:122-151 | accepted exactly when there are as many words, each the same label or a number no further off than the tolerance, or than that fraction of the larger magnitude |
| `Judging.OneNumber` | backend/src/services/checker.service.js:113-120 | one finite number printed for another is accepted exactly within that distance |
| `Judging.ZeroToleranceIsEquality` | backend/src/services/checker.service.js:113-120 | under a tolerance of zero numbers have to be equal |
| `Judging.RaisingNeverRejects` | backend/src/services/checker.service.js:113-120 | raising the tolerance never rejects what was accepted |
| `Judging.FarIsRejected` | backend/src/services/checker.service.js:113-120 | 2.71 is not within any tolerance up to 0.13 of 3.14 |
| `Checker.Check` | backend/src/services/checker.service.js:193-223 | decides acceptance for every checker name, an unknown one judging exactly |
| `Judging.ExactExact` | backend/src/services/checker.service.js:217-221 | `exact` and unknown names want the same canonical lines, `case_insensitive` the same after folding |
| `Judging.UnorderedLinesExact` | backend/src/services/checker.service.js:87-91 | `unordered_lines` wants the lines, without the white space around them, rearranged |
| `Judging.UnorderedTokensExact` | backend/src/services/checker.service.js:94-104 | `unordered_tokens` wants the words rearranged |
| `Checker.LinesImplyTokens` | backend/src/services/checker.service.js:204-212 | accepted by unordered_lines implies accepted by unordered_tokens |
| `Checker.ExactImplies` | backend/src/services/checker.service.js:193-223 | what exact accepts every other checker accepts, float under a tolerance of at least zero |
| `Checker.FloatReflexive` | backend/src/services/checker.service.js:113-151 | float accepts an output against itself exactly when its tolerance is at least zero or no token is a finite number |
| `Checker.Symmetric` | backend/src/services/checker.service.js:193-223 | every checker but regex is symmetric |
| `Checker.OnlyCanonicalLinesMatter` | backend/src/services/checker.service.js:73-81 | outputs with the same canonical lines are interchangeable for every checker |
| `Grading.ConfigNeverMixes` | backend/src/services/codeExecution.service.js:313-334 | a checker is never judged with the configuration of another |
| `Grading.InheritsWholly` | backend/src/services/codeExecution.service.js:329-334 | a case is judged by its own checker, or as if the problem's checker and configuration were its own |
| `Grading.WeightOf` | backend/src/services/codeExecution.service.js:342-345 | a weight is never negative; absent and unusable weights count 1 |
| `Grading.Weigh` | backend/src/services/codeExecution.service.js:358-380 | the one-pass loop over the map yields the totals and the groups in order of first appearance |
| `Grading.GroupsConserve` | backend/src/services/codeExecution.service.js:347-380 | group labels are distinct and earned, total, passed and count of the groups add up to the whole |
| `Grading.TallyConcat` | backend/src/services/codeExecution.service.js:358-380 | the tally of two lists is the sum of theirs |
| `Grading.TallyOne` | backend/src/services/codeExecution.service.js:358-380 | a single result counts its weight, once, under its own label |
| `Grading.OrderDoesNotMatter` | backend/src/services/codeExecution.service.js:358-380 | reordering the results changes no total and no group's score |
| `Grading.UnitWeights` | backend/src/services/codeExecution.service.js:336-345 | with unit weights the weighted score is the count |
| `Grading.EarnedWithinTotal` | backend/src/services/codeExecution.service.js:358-380 | 0 <= earned <= total, and passed <= count |
| `Grading.SummaryIsFirstFailure` | backend/src/services/verdict.service.js:102-107 | the summary is the verdict of the first case that failed |
| `Grading.VerdictIsGravest` | backend/src/services/verdict.service.js:64-93 | a run's verdict is the gravest thing to be said of it: time before output before memory before a crash before a wrong answer |
| `Grading.SummaryAccepts` | backend/src/services/verdict.service.js:102-107 | it is accepted exactly when every case is |
| `Grading.RunTestCases` | backend/src/services/codeExecution.service.js:387-481 | a case passes exactly when its run was clean and its own checker accepts; the total is the same with a compile error; without one, accepted exactly when all pass |
| `AuthTokens.RedeemableExactlyWhen` | backend/src/services/authToken.service.js:59-68 | under any interleaving of statements, a token is redeemable exactly when it was issued to that user for that purpose, has not expired, and has since been neither superseded nor redeemed |
| `AuthTokens.RedeemedHonestly` | backend/src/services/authToken.service.js:59-68 | a successful redemption answers the user it was issued to, for its purpose, before expiry |
| `AuthTokens.RedeemedAtMostOnce` | backend/src/services/authToken.service.js:13-15 | no token is redeemed twice |
| `AuthTokens.LatestTokenOnly` | backend/src/services/authToken.service.js:16-18 | when issuing is atomic the redeemable token is the one issued last |
| `AuthTokens.OneLiveToken` | backend/src/services/authToken.service.js:16-18 | when issuing is atomic at most one token is live per user and purpose |
| `AuthTokens.InterleavedIssuesLeaveTwo` | backend/src/services/authToken.service.js:33-50 | two issues whose statements interleave leave two live tokens |
| `AuthTokens.PurgeIsInvisible` | backend/src/services/authToken.service.js:70-76 | purging changes the answer of no later redemption, over any run |
| `AuthTokens.PurgeExact` | backend/src/services/authToken.service.js:70-76 | exactly the rows expired or used more than seven days ago are deleted |
| `AuthTokens.TokenStore.Issue` | backend/src/services/authToken.service.js:33-50 | supersedes, then inserts |
| `AuthTokens.TokenStore.RedeemToken` | backend/src/services/authToken.service.js:59-68 | checks and consumes in one step, or changes nothing |
| `AuthTokens.TokenStore.PurgeExpired` | backend/src/services/authToken.service.js:71-76 | deletes exactly the stale rows and counts them |
| `Migrations.RecordedIsCommitted` | backend/scripts/migrate.js:106-122 | however runners interleave and are cut, the recorded set is the set of committed migrations, each once |
| `Migrations.ResumedRun` | backend/scripts/migrate.js:82-127 | a complete run after one cut anywhere ends where an uninterrupted run would have |
| `Migrations.InterruptionsDoNotMatter` | backend/scripts/migrate.js:82-127 | so does one after any number of interrupted runs |
| `Migrations.FurtherRunChangesNothing` | backend/scripts/migrate.js:12-12 | a further run, complete or cut, changes nothing, and every shipped file is recorded |
| `MigrationOrder.FullRunInOrder` | backend/scripts/migrate.js:26-32 | a complete run applies, after what was there, exactly the unrecorded files, each once and in the order they ship |
| `MigrationOrder.CutRunInOrder` | backend/scripts/migrate.js:106-122 | wherever a run is cut, no file is recorded by it without those that ship before it |
| `MigrationOrder.OutOfOrderExactlyWhenLost` | backend/scripts/migrate.js:89-122 | with any number of runners, an earlier file is missing when a later one is applied exactly when a base schema without it was loaded under that runner and nobody has applied it since |
| `MigrationOrder.AppliedInOrder` | backend/scripts/migrate.js:61-74 | never, if the base schema records every file, or the tables existed at the start, or runners take turns |
| `MigrationOrder.TwoRunnersCanSkip` | backend/scripts/migrate.js:82-122 | otherwise two runners can apply 003 without 002 |
| `MigrationOrder.FreshInstall` | backend/scripts/migrate.js:10-13 | on an empty database the base schema is loaded and completed; if it records every file nothing is re-applied |
| `MigrationOrder.UpgradeKeepsAccounts` | backend/scripts/migrate.js:47-59 | on a database in use no run, complete or cut, drops a table or an account |
| `Migrations.StatusIsReadOnlyExactlyWhen` | backend/scripts/migrate.js:8-8 | the status listing changes nothing exactly when the bookkeeping table exists |
| `Migrations.SerialNeverDestroys` | backend/scripts/migrate.js:47-59 | with one runner at a time the base schema is never loaded once the users table exists, and no account is lost |
| `Migrations.DestroysExactlyWhenRaced` | backend/scripts/migrate.js:47-87 | a runner about to load the base schema destroys existing tables exactly when another loaded it since this one looked |
| `Migrations.TwoRunnersCanDestroy` | backend/scripts/migrate.js:47-87 | and two runners can indeed do so |
| `Migrations.RunnerIsCutRun` | backend/scripts/migrate.js:82-127 | a runner alone passes through exactly the states a run can be cut in |
| `Migrations.Database.Run` | backend/scripts/migrate.js:82-127 | the loop, killed after any number of commits, leaves that cut state; finished, the complete one |

## Left out

- ExamModel.StepDeleteTestCase: models the deletion of a test case that exists; a request naming another one changes nothing.
- Edits.AnnotateKeepsNorms: comments that contain a docstring delimiter or a comment end, and comments at the end of a line of code, are not covered.
- Edits.RespaceKeepsNorms: a gap that begins with a line feed can be lengthened and shortened behind it, but the line feed stays.
- Similarity.DisguisedCopyScores100: edits are made at tokens; text appended after the last token is not covered.
- ExamServer.Server.AssignedProblemIds: one step; its statements are interleaved in DealRaces, for one student and one exam, and not with other requests.
- ExamSealing.RevealsOnlyAccessible: covers the modelled requests; a student's list of their own submissions, which names the problems too, is not one of them.
- Grading.RunTestCases: weights and sums are exact reals; the rounding of doubles is not modelled.
- Checker.Check: the regex checker's match and its deadline are a parameter, as are `Number(...)` and `toLowerCase()`.
- ClassReport.ComputeClassReport: percentages are exact reals, rounded to one decimal as the code does; the rounding of doubles is not modelled.
- ExamResults.PenalisedInRange: exact integer arithmetic; with doubles the rounded-up score could be one point higher.
- ExamResults.BestIsUnique: two attempts stored in the same millisecond with equal counts are taken in order of id, which the aggregate leaves open.
- AuthTokens.RedeemableExactlyWhen: tokens never repeat and their hashes do not collide; a token stands for its hash.
- WorkerPool.SizeAlwaysInBounds: process ids are not reused, and a fork always succeeds.
- Migrations.InterruptionsDoNotMatter: the list of shipped files does not change between the runs; what a migration's SQL does is its name in a list of effects.
- PostgreSQL isolation: a request is one atomic step, except for deals, tokens, migrations and ticks, where statements interleave.
- Clocks: one integer clock, although the database and the process each have their own.
- Accounts: users, roles and addresses are fixed over a run; registration, login and profile changes are not modelled.
- Titles, descriptions, starter code, drafts, join-code generation, the list pages and the similarity archive: content that no modelled rule depends on.
- The keyed map of `weigh` and the process map of the supervisor are sequences in insertion order; `Array.prototype.sort` is a stable insertion sort.
- Request parsing and type coercion: inputs are already of their types; the guards a schema enforces are branches of the step.
- canAccessCourse: it ignores assistants, unlike the scope the modelled rules use, so nothing is claimed about it.
- Docker, process spawning, mail, Redis, WebSocket, metrics and the React pages: foreign calls or user interface.
