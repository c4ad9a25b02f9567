# Student enrolment rules, modelled in Dafny

This project models the decision logic of the Aptiture puzzle solution. A list of
(student, subject) candidates is enrolled one by one, in input order. Each candidate
is checked against the enrolments accepted so far by a validator with five rules, which
are tried in a fixed order:

1. a ranking outside 0..100 (code 1);
2. a full subject (code 2);
3. a Programming gate on ranking (code 3);
4. a Design gate on international status (code 4);
5. a Literature gate on scholarships (code 5).

Code 0 accepts the candidate. The enroller logs every decision and appends an enrolment
for every acceptance.

Files:

- `entities.dfy` (module `Entities`) holds the records `Student`, `Subject`, `Enrolment`,
  `EnrolmentConfig`, the candidate pair, and the `(code, message)` outcome.
- `validator.dfy` (module `EnrolmentValidator`) holds `IsValidEnrolment`, the per-subject
  count and the percentage computation. It also holds an order-free, division-free
  statement of each rule (`RuleFires`) and the lemmas that tie the two together.
- `enroller.dfy` (module `StudentEnroller`) holds `Enrol`, an imperative loop over local
  sequences with the validator injected as a function value, and `EnrolWithDefaultValidator`,
  which wires in the real validator. `Processed` is the recursive function that specifies
  the loop. The lemmas about the log, the enrolments and capacity are stated over it.

Notes on modelling choices:

- The source keeps enrolments in a `List` (Solution.cs:145), so the model uses a sequence.
  Nothing checks for duplicates, so the same student can be enrolled twice in one subject.
- `Subject.MaxSubjectSize` is a plain `int` (Solution.cs:23), so the model allows any
  capacity. A capacity of 0 or less is caught by rule 2 (Solution.cs:115), because the
  count is never negative. So the division at Solution.cs:118 never runs with a
  non-positive divisor. `PercentageFull` requires `0 <= count < max`, and its call in
  `IsValidEnrolment` verifies only because rule 2 comes first.
- Rule 3 rejects when `ranking < acceptedRanking`. A ranking equal to the threshold is
  accepted.

## Model

| member | source | states |
|---|---|---|
| EnrolmentValidator.SubjectCount | Aptiture.Puzzle.Solution.CSharp/Solution.cs:112 | the count of enrolments naming the subject is at most the list length, and it is zero exactly when no enrolment names the subject |
| EnrolmentValidator.SubjectCountAppend | Aptiture.Puzzle.Solution.CSharp/Solution.cs:112 | the count over a concatenation is the sum of the counts over the parts |
| EnrolmentValidator.SubjectCountPush | Aptiture.Puzzle.Solution.CSharp/Solution.cs:154 | appending an enrolment raises its own subject's count by one and leaves every other subject's count unchanged |
| EnrolmentValidator.PercentageFull | Aptiture.Puzzle.Solution.CSharp/Solution.cs:115-118 | the percentage is computed only when 0 <= count < capacity, so the divisor is positive; the result lies in [0, 100) and times the capacity equals count times 100 |
| EnrolmentValidator.PercentageReached | Aptiture.Puzzle.Solution.CSharp/Solution.cs:118-132 | "percentage full >= threshold" is the same as the division-free "count * 100 >= threshold * capacity" |
| EnrolmentValidator.IsValidEnrolment | Aptiture.Puzzle.Solution.CSharp/Solution.cs:106-137 | the code is always in 0..5, and the message is empty exactly when the code is 0 |
| EnrolmentValidator.FirstFiringRule | Aptiture.Puzzle.Solution.CSharp/Solution.cs:106-136 | strict priority: for k in 1..5 the code is k exactly when rule k fires and no earlier rule does, with every rule stated independently and without division |
| EnrolmentValidator.AcceptedIffNoRuleFires | Aptiture.Puzzle.Solution.CSharp/Solution.cs:109-136 | the code is 0 exactly when none of rules 1..5 fires, and then the message is empty |
| EnrolmentValidator.InvalidRankingRejected | Aptiture.Puzzle.Solution.CSharp/Solution.cs:109-110 | a ranking below 0 or above 100 gives code 1, whatever the subject, enrolments or config |
| EnrolmentValidator.FullSubjectRejected | Aptiture.Puzzle.Solution.CSharp/Solution.cs:112-117 | a valid ranking into a subject whose count is at least its capacity gives code 2, even where rules 3..5 would pass |
| EnrolmentValidator.NonPositiveCapacityIsFull | Aptiture.Puzzle.Solution.CSharp/Solution.cs:115-118 | a capacity of 0 or less always yields code 2 for a valid ranking, so the division at line 118 is never reached with it |
| EnrolmentValidator.CategoryGates | Aptiture.Puzzle.Solution.CSharp/Solution.cs:121-134 | codes 3, 4, 5 occur only for Programming, Design and Literature subjects respectively; an Unknown subject only gets 0, 1 or 2 |
| EnrolmentValidator.AcceptedBelowCapacity | Aptiture.Puzzle.Solution.CSharp/Solution.cs:109-117 | an accepted candidate has a ranking in 0..100 and a subject whose count is below a positive capacity |
| StudentEnroller.SuccessEntry | Aptiture.Puzzle.Solution.CSharp/Solution.cs:155-156 | the success log entry has code 0 and, unlike the validator's empty message, a message naming the student and the subject |
| StudentEnroller.Step | Aptiture.Puzzle.Solution.CSharp/Solution.cs:150-159 | one iteration appends exactly one log entry and keeps earlier entries. On code 0 it logs a success entry and appends `NewEnrolment` (the `Enrolment(studentNumber, subjectName)` of line 154). Otherwise it appends the verdict verbatim and leaves the enrolments unchanged |
| StudentEnroller.Processed | Aptiture.Puzzle.Solution.CSharp/Solution.cs:142-163 | `Step` applied to each candidate in input order. Afterwards the log has one entry per candidate, the initial enrolments are a prefix of the result, and at most one enrolment is added per candidate. `LogEntry` and `EnrolmentsAreAcceptances` state what the result means |
| StudentEnroller.Enrol | Aptiture.Puzzle.Solution.CSharp/Solution.cs:142-163 | the loop computes exactly the specification `Processed` for any pure validator; in particular the log length equals the input length and the initial enrolments are kept as a prefix |
| StudentEnroller.EnrolWithDefaultValidator | Aptiture.Puzzle.Solution.CSharp/Solution.cs:165-168 | the overload equals `Processed` with `IsValidEnrolment` as the validator |
| StudentEnroller.PrefixStable | Aptiture.Puzzle.Solution.CSharp/Solution.cs:148-160 | earlier decisions are never revisited: processing the first i candidates gives the first i log entries and a prefix of the final enrolments |
| StudentEnroller.LogEntry | Aptiture.Puzzle.Solution.CSharp/Solution.cs:148-160 | log entry i has code 0 exactly when the validator accepted candidate i against the enrolments accumulated before it; an acceptance is logged as a success entry naming student and subject, and a rejection is copied verbatim |
| StudentEnroller.EnrolmentsAreAcceptances | Aptiture.Puzzle.Solution.CSharp/Solution.cs:145-162 | the final enrolments are the initial ones followed by exactly one `Enrolment(studentNumber, subjectName)` per code-0 log entry, in log order; rejected candidates add nothing |
| StudentEnroller.SubjectStaysWithinCapacity | Aptiture.Puzzle.Solution.CSharp/Solution.cs:115-167 | with the real validator, a subject that starts within its capacity, and is given the same capacity by every candidate naming it, ends within it |
| StudentEnroller.CapacityPreserved | Aptiture.Puzzle.Solution.CSharp/Solution.cs:142-168 | with the real validator, if candidates that name the same subject agree on its capacity and every subject starts within capacity, every subject ends within capacity |
| StudentEnroller.UntouchedSubjectUnchanged | Aptiture.Puzzle.Solution.CSharp/Solution.cs:152-154 | for any validator, a subject no candidate names keeps its initial count |
| StudentEnroller.Rule3Scenario | Aptiture.Puzzle.Solution.CSharp/Solution.cs:115-124 | using the thresholds from the console program, with two students for a Programming subject of capacity 2: the first is accepted, and at 50% full the second gets code 3 exactly when ranked below 70 and is enrolled when ranked 70 or above |

## Left out

- `RandomItemPicker`, `RandomStudentGenerator` and `RandomEnrolmentGenerator` are left out. They only generate input, using a system random source. The candidate list is a parameter of `Enrol` instead.
- `Program.Main` is left out. It is console output, file writing and a fixed configuration. `Rule3Scenario` reuses its thresholds.
- Null references and the exceptions they raise are not modelled. A null student or null list element fails at Solution.cs:109 and :112, and a null enrolment array fails at :145.
- Validators that throw, keep state or change the list they are given (Solution.cs:143, 150) are not modelled. `Validator` is a pure total function, so `Enrol` and the lemmas about `Processed` cover pure validators only.
- Floating-point arithmetic is not modelled. The percentage and the three percentage thresholds are exact reals here, so IEEE rounding at a threshold boundary is not modelled.
- Message text and `string.Format` rendering are not modelled. A message keeps only the facts its text embeds (student number, subject name, thresholds). In the original, rule 5's text repeats rule 4's wording about design subjects and international students. That affects only text and is not modelled.
- 32-bit integer width is not modelled. Rankings, capacities and counts are unbounded integers. The original's `int` cannot overflow here in practice, because a count is bounded by the list length.
- The concrete containers (`IEnumerable`, `List`, arrays, `Tuple`) are modelled as sequences and datatypes. The input array is copied into a local sequence, as the original copies it into a list.
- Determinism needs no lemma. Every member is a function or a method without state, so running it twice on the same inputs gives the same log and enrolments.
