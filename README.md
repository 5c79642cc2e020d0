# Peer-grading engine

A Dafny model of the decision logic inside `app.js`, a browser application in
which students publish project deliverables and an anonymous jury of other
students grades them. The model covers the following:

- who may grade a deliverable: students outside the project team, with
  usernames compared without regard to case;
- how the jury is drawn: at or after the due time, from a Fisher-Yates
  shuffle of that pool, and fixed once it is non-empty;
- when a grade may still be changed: until `dueAt` plus the edit window;
- how a juror's grade is created or updated: at most one grade per
  deliverable and evaluator;
- how the final grade is computed: the mean of the values without one least
  and one greatest, rounded to hundredths;
- how the register, create-project and create-deliverable handlers check
  their input.

Modules, one per file:

| file | module | contents |
|---|---|---|
| `records.dfy` | `Records` | users, projects, deliverables and grades; `byId` lookups |
| `text.dfy` | `Text` | `trim`, ASCII `toLowerCase`, `split` and `join` |
| `team.dfy` | `Team` | `parseTeamUsernames`, `userByUsername`, `isUserInTeam` |
| `eligibility.dfy` | `Eligibility` | `eligibleEvaluatorsForDeliverable` |
| `shuffle.dfy` | `Shuffling` | `shuffle`: a method that swaps in place on an array, proved against a function on sequences |
| `jury.dfy` | `Jury` | `assignJuryIfDue` on one deliverable |
| `ledger.dfy` | `Ledger` | value normalisation, `canEditGrade`, grade upsert, `getGradesForDeliverable` |
| `aggregate.dfy` | `Aggregate` | `computeFinalGradeFromValues` and the professor's anonymous summary |
| `validation.dfy` | `Validation` | the input rules of the three creation handlers |
| `consistency.dfy` | `Consistency` | the invariant over stored records and the proofs that each handler keeps it |
| `database.dfy` | `Database` | class `Db`: the database object, whose handlers change it in place |

The following are parameters rather than calls:

- `Date.now()` is `now`, in milliseconds.
- The `Math.random()` draws of the shuffle are `draws`: the index `j` picked
  at each step.
- The ids `uid(...)` would mint are `newId`. `Register` requires that id to
  be fresh.

Grade values are whole numbers of hundredths (725 stands for 7.25). Details
of the code that are easy to miss:

- A fractional jury size such as 3.5 asks for `floor(3.5)` jurors, because
  `slice` truncates its bound.
- Removing repeated team names (`new Set`) is case-sensitive, while team
  membership tests ignore case.

## Model

| member | source | states |
|---|---|---|
| Records.FindIndex | app.js:46-48 | `find`: the index found satisfies the predicate and no earlier element does; none is found only when no element satisfies it |
| Records.UserById | app.js:46-48 | `byId(db.users, id)` returns a listed user with that id; it returns nothing exactly when no user has the id |
| Records.ProjectById | app.js:46-48 | `byId(db.projects, id)` returns a listed project with that id; it returns nothing exactly when none has it |
| Records.DeliverableIndex | app.js:46-48 | position of the deliverable `byId` finds; nothing exactly when no deliverable has the id |
| Records.DeliverableById | app.js:46-48 | `byId(db.deliverables, id)` returns a listed deliverable with that id; it returns nothing exactly when none has it |
| Records.Ids | app.js:155 | `.map(u => u.id)`: same length, position by position the user's id |
| Records.UserByIdFinds | app.js:46-48 | with distinct ids, looking up a listed user's id finds that very user |
| Records.UserByIdAppend | app.js:499 | pushing a user never changes whom an id that already resolved names |
| Records.ProjectByIdAppend | app.js:535 | pushing a project never changes what an id that already resolved names |
| Records.DeliverableByIdAppend | app.js:578 | pushing a deliverable never changes the position or the record an existing id resolves to |
| Records.DeliverableIndexUpdate | app.js:157 | replacing a deliverable by a copy with the same id, as the in-place jury assignment does, keeps every lookup's position |
| Text.TrimStart | app.js:492 | leading part of `trim`: a suffix of the input, not starting with white space, everything cut being white space |
| Text.TrimEnd | app.js:492 | trailing part of `trim`: a prefix of the input, not ending with white space, everything cut being white space |
| Text.TrimSpec | app.js:492 | `trim` returns a slice of its input with no white space at either end, and leaves a trimmed string unchanged |
| Text.TrimKeepsOut | app.js:113 | trimming never introduces a character |
| Text.TrimIdempotent | app.js:113 | trimming twice is trimming once |
| Text.LowerChar | app.js:119 | `toLowerCase` on one character: an ASCII capital becomes its small letter, anything else is unchanged |
| Text.ToLower | app.js:119 | `toLowerCase` keeps the length and lowers each character |
| Text.EqualsIgnoreCaseSpec | app.js:119 | case-insensitive equality is reflexive and symmetric, and holds exactly for equal-length strings that agree character by character up to case |
| Text.Split | app.js:113 | `split(",")` gives at least one piece, no piece holds the separator, and joining the pieces with it gives the input back |
| Text.SplitJoin | app.js:113 | splitting the join of separator-free pieces gives the pieces back |
| Text.SplitNoSeparator | app.js:113 | a string without the separator splits into itself |
| Text.SplitPrefix | app.js:113 | splitting `w + sep + t`, with `w` separator-free, yields `w` then the pieces of `t` |
| Team.FirstIndex | app.js:115 | position of the first occurrence: it holds `x` and nothing before it does |
| Team.FirstIndexUnique | app.js:115 | the first occurrence is the only position holding `x` with no `x` before it |
| Team.FirstIndexAppend | app.js:115 | appending never moves the first occurrence of an element already present |
| Team.Dedup | app.js:115 | `Array.from(new Set(list))`: no repetitions, the same elements as the input, ordered by first occurrence |
| Team.DedupDistinct | app.js:115 | a list without repetitions is left as it is |
| Team.TrimAll | app.js:113 | `.map(s => s.trim())`: same length, each piece trimmed |
| Team.NonEmpty | app.js:113 | `.filter(Boolean)`: exactly the non-empty strings of the input, never longer |
| Team.NonEmptyKeeps | app.js:113 | a list of non-empty strings passes the filter unchanged |
| Team.NonEmptyCounts | app.js:113 | `.filter(Boolean)` keeps each non-empty name as many times as it occurs and drops the empty ones |
| Team.NonEmptyOrder | app.js:113 | `.filter(Boolean)` keeps the order: of two non-empty names, one comes first after the filter exactly when it came first before |
| Team.ParseTeamUsernamesSpec | app.js:111-116 | the parsed team has no repeated name, holds exactly the non-empty trimmed comma-separated pieces, each name is non-empty, trimmed and comma-free, and the names come in the order of their first occurrences among the trimmed pieces |
| Team.ParseTeamRoundTrip | app.js:111-116 | parsing the comma-join of distinct well-formed names gives the names back |
| Team.InTeamIgnoresCase | app.js:122-124 | `isUserInTeam` gives the same answer for usernames equal up to case |
| Team.UserByUsername | app.js:118-120 | `userByUsername` returns a listed user whose username equals the query up to case; it returns nothing exactly when no user matches |
| Team.UsernameIndex | app.js:118-120 | position of the user `userByUsername` finds; nothing exactly when no username matches up to case |
| Team.UserByUsernameAppend | app.js:499 | registering a user never changes whom a username that already resolved names |
| Eligibility.StudentsOutsideTeam | app.js:131-135 | the filter keeps exactly the listed users who are students outside the team (up to case), never more users |
| Eligibility.StudentsOutsideTeamDistinct | app.js:131-135 | filtering users with distinct ids keeps the ids distinct |
| Eligibility.EligibleEvaluators | app.js:126-136 | no one when the project is missing; otherwise exactly the users who are students not in the team up to case; distinct ids stay distinct |
| Shuffling.Swap | app.js:142 | `[a[i], a[j]] = [a[j], a[i]]`: positions `i` and `j` exchanged, every other position unchanged |
| Shuffling.SwapPermutes | app.js:142 | a swap keeps the multiset of elements |
| Shuffling.ShuffleSteps | app.js:140-143 | the first `k` iterations of the loop keep the length |
| Shuffling.ShuffleStepsPermutes | app.js:140-143 | every prefix of the loop keeps the multiset of elements |
| Shuffling.Shuffle | app.js:138-145 | `shuffle(arr)` copies into a fresh array and swaps in a descending loop; the result is the loop's outcome for the draws, a permutation of the input, which stays unchanged |
| Shuffling.IdsSwap | app.js:142 | swapping users then taking ids is swapping the ids |
| Shuffling.IdsShuffleSteps | app.js:155 | shuffling users then taking ids is shuffling the ids |
| Shuffling.ShuffleStepsDistinct | app.js:138-145 | a shuffle of a list without repetitions has none |
| Shuffling.ShuffleStepsSettles | app.js:140-143 | once iteration `k` has filled position `n - k`, later iterations leave it alone |
| Shuffling.ShuffledSettled | app.js:140-143 | the final order holds at position `n - k` what iteration `k` put there |
| Shuffling.StepDrawAgrees | app.js:140-143 | on distinct elements, two runs that reach the same state before iteration `k` and end in the same order made the same draw at iteration `k` |
| Shuffling.StatesAgree | app.js:138-145 | on distinct elements, two runs that end in the same order pass through the same states |
| Shuffling.DrawAgrees | app.js:138-145 | on distinct elements, two runs that end in the same order made the same draw at every iteration |
| Shuffling.ShuffledInjective | app.js:138-145 | on distinct elements, different admissible draw sequences give different orders |
| Shuffling.ShuffledPrefixIds | app.js:155 | with distinct user ids, the ids of any prefix of the shuffle are distinct ids of input users |
| Jury.JuryCount | app.js:154-155 | the number of jurors kept never exceeds the pool |
| Jury.JuryCountSpec | app.js:154-155 | `Math.max(3, Number(jurySize) \|\| 3)` capped by the pool: 3 for NaN or -Infinity, the whole pool for +Infinity, `max(3, n)` capped by the pool for a whole `n`, and at least one juror from a non-empty pool |
| Jury.AssignJuryIfDue | app.js:147-158 | nothing changes when a jury is already assigned or the deliverable is not due yet; only the jury ever changes |
| Jury.DrawJury | app.js:147-158 | the running code (early returns, shuffle, slice, map) computes exactly `AssignJuryIfDue` |
| Jury.JuryDrawn | app.js:153-157 | a jury drawn at or after the due time has exactly `JuryCount` distinct ids, all from the pool, and is empty only when the pool is |
| Jury.JuryFrozen | app.js:149 | once assigned, a jury is never changed by a later call, whatever the clock, pool or draws |
| Ledger.RoundHalfUp | app.js:32-35 | `Math.round`: the result is within half of the input, halves rounded up |
| Ledger.NormalizeGradeSpec | app.js:386-391 | a submission is accepted exactly when it is a finite number in [0.995, 10.005); the stored value is then in [100, 1000] hundredths and is the nearest hundredth |
| Ledger.NormalizeGradeRoundTrip | app.js:37-44 | a stored value in [1, 10] with two decimals re-validates as itself |
| Ledger.EditWindowSpec | app.js:160-164 | once the edit window is closed it stays closed; with the one-minute minimum it is open for the first minute after the due time |
| Ledger.FindGrade | app.js:393 | the grade found belongs to this deliverable and evaluator; nothing is found exactly when no grade does |
| Ledger.UpsertGradeSpec | app.js:393-400 | at most one grade per pair is kept, and exactly one exists for this pair, holding the new value with `updatedAt = now`; an existing one stays in place with its id, keys and `createdAt`; otherwise one grade created `now` is appended; no other grade changes |
| Ledger.FindGradeUnique | app.js:393 | a search whose only hit is at position `k` returns `k` |
| Ledger.UpsertGradeMembers | app.js:393-400 | every grade after storing is an earlier grade or this pair's grade holding the new value |
| Ledger.SubmitGradeSpec | app.js:376-400 | refusal by the first failing check (not on the jury, window closed, invalid value); acceptance exactly when all pass, storing the normalised value, between 1 and 10, for the caller with one grade per pair |
| Ledger.GradesForDeliverable | app.js:166-168 | exactly the grades of the deliverable, never more than all grades |
| Ledger.GradesForDeliverableCounts | app.js:166-168 | `filter` keeps each grade of the deliverable as many times as it occurs and drops every other grade |
| Ledger.GradesForDeliverableConcat | app.js:166-168 | `filter` keeps the order: filtering a concatenation concatenates the filtered parts, and one grade is kept exactly when it belongs to the deliverable |
| Ledger.Values | app.js:423 | `grades.map(g => g.value)`: same length, position by position the value |
| Aggregate.Insert | app.js:173 | inserting one value lengthens the list by one |
| Aggregate.InsertPermutes | app.js:173 | insertion adds exactly the inserted value to the multiset |
| Aggregate.InsertSorted | app.js:173 | inserting into an ascending list keeps it ascending |
| Aggregate.InsertAbove | app.js:173 | inserting a value at least `lo` into a list bounded below by `lo` keeps that bound |
| Aggregate.SortAscending | app.js:173 | `sort((a,b) => a - b)` keeps the length |
| Aggregate.SortPermutes | app.js:173 | the sort is a permutation of its input |
| Aggregate.SortSorts | app.js:173 | the sort's result is ascending |
| Aggregate.MinIsLeast | app.js:173 | the least value is one of the values and no value is smaller |
| Aggregate.MaxIsGreatest | app.js:173 | the greatest value is one of the values and no value is larger |
| Aggregate.FinalGradeFromValues | app.js:170-177 | `null` exactly when fewer than three values are given |
| Aggregate.RoundedMeanSpec | app.js:176 | `clamp2Decimals(avg)` in hundredths is the nearest whole number to the mean, halves rounded up |
| Aggregate.SumConcat | app.js:175 | the sum of a concatenation is the sum of the sums |
| Aggregate.SumPermutation | app.js:175 | the sum does not depend on the order of the values |
| Aggregate.MinMaxPermutation | app.js:172-174 | a permutation has the same length, least and greatest value |
| Aggregate.SortedEnds | app.js:172-174 | an ascending arrangement of the values starts with the least and ends with the greatest |
| Aggregate.SortedMinMax | app.js:172-174 | in an ascending list the first element is the least and the last the greatest |
| Aggregate.FinalGradeIsTrimmedMean | app.js:170-177 | from three values on, the final grade is the rounded mean over `n - 2` of the total less exactly one least and one greatest value, ties included |
| Aggregate.FinalGradeOfTrimmedSum | app.js:174-176 | the final grade rounds the mean of the trimmed sum over `n - 2` values |
| Aggregate.TrimmedSum | app.js:172-175 | the sorted values without their first and last sum to the total less one least and one greatest value |
| Aggregate.TrimmedSumOfPermutation | app.js:172-175 | any ascending arrangement without its ends sums to the total less the least and the greatest |
| Aggregate.SumWithoutEnds | app.js:174-175 | dropping the first and the last element subtracts them from the sum |
| Aggregate.SumLast | app.js:175 | the sum is the sum of all but the last plus the last |
| Aggregate.FinalGradeOrderIrrelevant | app.js:170-177 | the final grade depends only on the multiset of values, not on their order |
| Aggregate.SumBounds | app.js:175 | values in [lo, hi] sum to between `n * lo` and `n * hi` |
| Aggregate.RoundedMeanBounds | app.js:175-176 | the rounded mean of values in [lo, hi] is in [lo, hi] |
| Aggregate.FinalGradeBounds | app.js:170-177 | the final grade lies between the least and the greatest value, so grades in [1, 10] give a final grade in [1, 10] |
| Aggregate.TrimmedSumBounds | app.js:172-175 | the trimmed sum lies between `(n - 2)` times the least and `(n - 2)` times the greatest value |
| Aggregate.TrimmedWithinExtremes | app.js:173 | every value kept after trimming lies between the least and the greatest value |
| Aggregate.FinalGradeExamples | app.js:170-177 | grades 6, 7, 10 and 2 give 6.50; a single grade gives no final grade |
| Aggregate.ProfessorSummary | app.js:420-439 | the professor's view counts the deliverable's grades against the jury size, shows the multiset of their values and the final grade of those values |
| Aggregate.Relabel | app.js:427 | the same grades attributed to other evaluators, nothing else changed |
| Aggregate.SummaryIgnoresEvaluators | app.js:427 | anonymity: the professor's view is the same whoever submitted the values |
| Aggregate.RelabelValues | app.js:422-423 | relabelling evaluators leaves the deliverable's values unchanged |
| Aggregate.RelabelFilter | app.js:166-168 | filtering by deliverable commutes with relabelling evaluators |
| Validation.CheckRegistration | app.js:492-496 | the username is the trimmed input; it is accepted exactly when non-empty and not taken up to case; an empty name is refused as required, any other refusal is "already exists" |
| Validation.MemberRefusal | app.js:527-531 | a team member passes exactly when registered as a student; otherwise "not registered" or "not a student" |
| Validation.FirstBadMember | app.js:527-531 | no refusal exactly when every member is a registered student |
| Validation.FirstBadMemberIsFirst | app.js:527-531 | the refusal is that of the first member who is not a registered student |
| Validation.CheckTeamMembers | app.js:527-531 | the member loop stops at, and reports, exactly the first bad member |
| Validation.CheckProject | app.js:518-532 | an accepted project carries the trimmed title and the parsed team |
| Validation.CheckProjectAccepts | app.js:518-532 | the project is accepted exactly when the title is non-empty, the team is non-empty, includes the creator up to case and has only registered students |
| Validation.CheckProjectRefusals | app.js:518-532 | the refusal is that of the first failing check: title, empty team, creator not in team, first bad member |
| Validation.ValidateProject | app.js:518-532 | the handler's checks, run in order, give exactly `CheckProject` |
| Validation.CheckDeliverable | app.js:547-576 | accepted exactly when the project exists and has the caller in its team, the title is non-empty, the due date valid, the jury size finite and at least 3, and the window finite and at least 1; the new deliverable has no link and no jury; missing project and foreign caller are refused first |
| Consistency.RegisterKeeps | app.js:490-503 | a user with a fresh id and a username not taken up to case keeps the invariant |
| Consistency.CreateProjectKeeps | app.js:534-535 | storing a well-formed project keeps the invariant |
| Consistency.CheckedProjectOk | app.js:518-534 | a project that passes the creation checks has a non-empty team of registered students that includes its creator |
| Consistency.CheckedDeliverableOk | app.js:547-576 | a deliverable that passes the creation checks belongs to a stored project and has a jury size of at least 3 and a window of at least one minute |
| Consistency.CreateDeliverableKeeps | app.js:567-578 | storing a well-formed deliverable keeps the invariant |
| Consistency.AssignJuryKeeps | app.js:147-158 | drawing a jury keeps the invariant: the jurors are distinct users who may grade the project |
| Consistency.NewJuryKeeps | app.js:157 | replacing a jury-less deliverable by a well-formed one with the same id keeps the invariant |
| Consistency.ReplaceDeliverableKeeps | app.js:157 | after replacing a deliverable with a well-formed one, every deliverable is well-formed |
| Consistency.FirstJuryKeepsGrades | app.js:157 | no grade points at a deliverable without a jury, so giving that deliverable a jury keeps every grade valid |
| Consistency.DrawnJuryOk | app.js:147-158 | a jury drawn from the eligible pool is made of distinct users who may grade the project |
| Consistency.SaveGradeKeeps | app.js:376-400 | storing an accepted submission keeps the invariant |
| Consistency.GradersAreOutsiders | app.js:126-136 | nobody grades their own work: every stored grade was given by a student outside the graded project's team |
| Consistency.StoredJuryCount | app.js:154-155 | for a stored deliverable the jury asks for `floor(jurySize)` jurors, or the whole pool when smaller |
| Database.Db.constructor | app.js:11-17 | the database starts empty with no session, and consistent |
| Database.Db.CurrentUser | app.js:89-92 | `getCurrentUser`: the listed user the session names; nothing exactly when there is no session or no user has its id |
| Database.Db.Register | app.js:490-503 | refused without change as `CheckRegistration` decides; otherwise the user is pushed and logged in, and nothing else changes; the invariant is kept |
| Database.Db.AddUser | app.js:498-500 | pushes the user and sets the session, nothing else, keeping the invariant |
| Database.Db.CreateProject | app.js:513-540 | ignored without a logged-in student; refused without change as `CheckProject` decides; otherwise one project is pushed with the caller as creator; the invariant is kept |
| Database.Db.AddProject | app.js:534-535 | pushes the project, nothing else, keeping the invariant |
| Database.Db.CreateDeliverable | app.js:542-584 | ignored without a logged-in student; refused without change as `CheckDeliverable` decides; otherwise one deliverable is pushed; the invariant is kept |
| Database.Db.AddDeliverable | app.js:567-578 | pushes the deliverable, nothing else, keeping the invariant |
| Database.Db.AssignJuryIfDue | app.js:147-158 | the deliverable's jury is set in place to what `Jury.AssignJuryIfDue` draws from its eligible pool; nothing else changes; the invariant is kept |
| Database.Db.StoreJury | app.js:157 | replaces the deliverable by its copy with the drawn jury, nothing else, keeping the invariant |
| Database.Db.SaveGrade | app.js:370-400 | ignored without a caller or a deliverable; refused without change as `SubmitGrade` decides; otherwise the grades become the upserted list; the invariant is kept |
| Database.Db.StoreGrade | app.js:393-400 | the caller's grade is updated in place or a new one is pushed, as `UpsertGrade` says; nothing else changes |

## Left out

- Persistence in `localStorage` (`loadDB`, `saveDB`): this is I/O. The class `Db` stands for the object `loadDB` returns.
- Rendering, the DOM and `alert`: this is UI. An alert is modelled as a `Refused` outcome carrying its reason.
- `uid` and `formatDT`: these produce random strings and locale text. Ids are abstract strings passed in as `newId`.
- `Math.random` and `Date.now`: these are the `draws` and `now` parameters.
- Shuffling.Shuffle: draws are required in range (`DrawsFit`), as `Math.floor(Math.random() * (i + 1))` guarantees. The quality of `Math.random` itself is not modelled, so uniformity is not stated as a probability. What is proved (`ShuffledInjective`) is that on distinct elements different draw sequences give different orders.
- Database.Db.SaveGrade: the handler is modelled as reading the clock once, as `now`. In app.js the edit-window check (through `canEditGrade`, app.js:163) and the `createdAt` and `updatedAt` stamps (app.js:395 and 399) each call `nowMs()`, so those times may differ by the milliseconds that pass between the calls. `Ledger.UpsertGradeSpec` and `Ledger.SubmitGradeSpec` state every stamp as the same `now`.
- Floating point: values are exact reals and hundredths. `Math.round(x * 100)` is computed on the exact product, so binary artefacts such as `7.005 * 100 = 700.4999…` are not reproduced.
- The `toString` decimal check of `isValidGrade` is not modelled: after `clamp2Decimals` it always passes in exact arithmetic.
- Text.LowerChar: handles the ASCII letters only. Full Unicode `toLowerCase` is not modelled.
- Date parsing of the due-date field: `new Date(dueStr).getTime()` is the `DueInput` parameter.
- The save-link handler (app.js:284-306) is not part of this model.
- The demo "force jury selection" handler (app.js:309-323) is not part of this model.
- Login and logout (app.js:94-106 and 505-511) are session plumbing and are not modelled.
- Aliasing between records: the in-place updates `deliverable.juryUserIds = …` and `g.value = …` are modelled as replacing the record at its position in the `Db` sequence field.
- Aggregate.ProfessorSummary: does not model the `Number.isNaN` filter of the professor view. Stored values are always whole hundredths, so it removes nothing.
- Database.Db.Register: requires the new id to be fresh, which `uid` provides in practice but does not guarantee.
