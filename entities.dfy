/** The records the enrolment rules work on: students, subjects, enrolments,
    the rule thresholds, and the (code, message) pair that both the validator
    and the enrolment log use. */
module Entities {

  datatype SubjectType = Programming | Design | Literature | Unknown

  /** A student; the ranking is nominally 0..100 but nothing enforces it. */
  datatype Student = Student(
    studentNumber: string,
    ranking: int,
    isInternationalStudent: bool,
    hasScholarship: bool)

  /** A subject, identified by its name; maxSubjectSize is its capacity. */
  datatype Subject = Subject(name: string, subjectType: SubjectType, maxSubjectSize: int)

  /** A committed acceptance of a student into a subject, by name. */
  datatype Enrolment = Enrolment(studentNumber: string, subjectName: string)

  /** The four thresholds of rules 3, 4 and 5. The percentages are
      floating point in the original and exact reals here. */
  datatype EnrolmentConfig = EnrolmentConfig(
    rule3PercentageCapacity: real,
    rule3AcceptedRanking: int,
    rule4PercentageCapacity: real,
    rule5PercentageCapacity: real)

  /** One candidate (student, subject) pair awaiting a decision. */
  datatype Candidate = Candidate(student: Student, subject: Subject)

  /** The human-readable part of an outcome, kept as the facts its text
      embeds rather than as rendered text. */
  datatype Message =
    | NoMessage
    | InvalidRanking(student: string)
    | MaximumReached(student: string, subject: string, maxSubjectSize: int)
    | RankingTooLow(student: string, percentageCapacity: real, acceptedRanking: int)
    | NotInternational(student: string, percentageCapacity: real)
    | HasScholarship(student: string, percentageCapacity: real)
    | Enrolled(student: string, subject: string)

  /** A (code, message) pair: code 0 accepts, codes 1..5 name the rule that rejected. */
  datatype Outcome = Outcome(code: int, message: Message)
}
