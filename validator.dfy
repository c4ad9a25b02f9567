/** The five enrolment rules, evaluated in a fixed order; the first rule
    that fires decides the rejection code. */
module EnrolmentValidator {
  import opened Entities

  /** The number of enrolments in `es` that name the subject `name`. */
  function SubjectCount(es: seq<Enrolment>, name: string): (n: nat)
    ensures n <= |es|
    ensures n == 0 <==> forall i :: 0 <= i < |es| ==> es[i].subjectName != name
  {
    if es == [] then 0
    else (if es[0].subjectName == name then 1 else 0) + SubjectCount(es[1..], name)
  }

  /** Counting distributes over concatenation. */
  lemma {:induction false} SubjectCountAppend(a: seq<Enrolment>, b: seq<Enrolment>, name: string)
    ensures SubjectCount(a + b, name) == SubjectCount(a, name) + SubjectCount(b, name)
  {
    if a == [] {
      assert a + b == b;
    } else {
      assert (a + b)[1..] == a[1..] + b;
      SubjectCountAppend(a[1..], b, name);
    }
  }

  /** Appending one enrolment raises the count of its own subject by one
      and leaves every other subject's count alone. */
  lemma SubjectCountPush(es: seq<Enrolment>, e: Enrolment, name: string)
    ensures SubjectCount(es + [e], name)
         == SubjectCount(es, name) + (if e.subjectName == name then 1 else 0)
  {
    SubjectCountAppend(es, [e], name);
    assert [e][1..] == [];
  }

  /** How full a subject is, in percent. Only defined below capacity: the
      validator reaches this computation only after rule 2 has ruled out
      `count >= max`, so the divisor is positive. */
  function PercentageFull(count: int, max: int): (p: real)
    requires 0 <= count < max
    ensures 0.0 <= p < 100.0
    ensures p * (max as real) == (count as real) * 100.0
  {
    (count as real) / (max as real) * 100.0
  }

  /** Division-free statement of "at least `threshold` percent full". */
  predicate ThresholdReached(count: int, max: int, threshold: real)
  {
    (count as real) * 100.0 >= threshold * (max as real)
  }

  /** Comparing the percentage with a threshold is the same as the
      division-free comparison. */
  lemma PercentageReached(count: int, max: int, threshold: real)
    requires 0 <= count < max
    ensures PercentageFull(count, max) >= threshold <==> ThresholdReached(count, max, threshold)
  {
    var p := PercentageFull(count, max);
    var m := max as real;
    assert m > 0.0;
    if p >= threshold {
      assert (p - threshold) * m >= 0.0;
    } else {
      assert (threshold - p) * m > 0.0;
    }
  }

  /** The validator: code 1 for a ranking outside 0..100, code 2 for a full
      subject, codes 3/4/5 for the Programming/Design/Literature gates,
      otherwise code 0 with no message. */
  function IsValidEnrolment(student: Student, subject: Subject, es: seq<Enrolment>, c: EnrolmentConfig): (r: Outcome)
    ensures 0 <= r.code <= 5
    ensures r.code == 0 <==> r.message == NoMessage
  {
    if student.ranking < 0 || student.ranking > 100 then
      Outcome(1, InvalidRanking(student.studentNumber))
    else
      var enroledStudents := SubjectCount(es, subject.name);
      if enroledStudents >= subject.maxSubjectSize then
        Outcome(2, MaximumReached(student.studentNumber, subject.name, subject.maxSubjectSize))
      else
        var percentageFull := PercentageFull(enroledStudents, subject.maxSubjectSize);
        if subject.subjectType == Programming && percentageFull >= c.rule3PercentageCapacity
           && student.ranking < c.rule3AcceptedRanking then
          Outcome(3, RankingTooLow(student.studentNumber, c.rule3PercentageCapacity, c.rule3AcceptedRanking))
        else if subject.subjectType == Design && percentageFull >= c.rule4PercentageCapacity
                && !student.isInternationalStudent then
          Outcome(4, NotInternational(student.studentNumber, c.rule4PercentageCapacity))
        else if subject.subjectType == Literature && percentageFull >= c.rule5PercentageCapacity
                && student.hasScholarship then
          Outcome(5, HasScholarship(student.studentNumber, c.rule5PercentageCapacity))
        else
          Outcome(0, NoMessage)
  }

  /** Each rule on its own, order-free and without division: does rule
      `rule` object to this candidate? */
  predicate RuleFires(rule: int, student: Student, subject: Subject, es: seq<Enrolment>, c: EnrolmentConfig)
  {
    var count := SubjectCount(es, subject.name);
    var max := subject.maxSubjectSize;
    if rule == 1 then student.ranking < 0 || student.ranking > 100
    else if rule == 2 then count >= max
    else if rule == 3 then
      subject.subjectType == Programming && ThresholdReached(count, max, c.rule3PercentageCapacity)
      && student.ranking < c.rule3AcceptedRanking
    else if rule == 4 then
      subject.subjectType == Design && ThresholdReached(count, max, c.rule4PercentageCapacity)
      && !student.isInternationalStudent
    else if rule == 5 then
      subject.subjectType == Literature && ThresholdReached(count, max, c.rule5PercentageCapacity)
      && student.hasScholarship
    else false
  }

  /** Strict priority: the code is `k` exactly when rule `k` fires and no
      earlier rule does. */
  lemma FirstFiringRule(student: Student, subject: Subject, es: seq<Enrolment>, c: EnrolmentConfig, k: int)
    requires 1 <= k <= 5
    ensures IsValidEnrolment(student, subject, es, c).code == k
        <==> RuleFires(k, student, subject, es, c)
             && forall j :: 1 <= j < k ==> !RuleFires(j, student, subject, es, c)
  {
    var count := SubjectCount(es, subject.name);
    var max := subject.maxSubjectSize;
    if !RuleFires(1, student, subject, es, c) && !RuleFires(2, student, subject, es, c) {
      PercentageReached(count, max, c.rule3PercentageCapacity);
      PercentageReached(count, max, c.rule4PercentageCapacity);
      PercentageReached(count, max, c.rule5PercentageCapacity);
    }
  }

  /** The candidate is accepted, with an empty message, exactly when none
      of the five rules fires. */
  lemma AcceptedIffNoRuleFires(student: Student, subject: Subject, es: seq<Enrolment>, c: EnrolmentConfig)
    ensures IsValidEnrolment(student, subject, es, c).code == 0
        <==> forall j :: 1 <= j <= 5 ==> !RuleFires(j, student, subject, es, c)
    ensures IsValidEnrolment(student, subject, es, c).code == 0
        ==> IsValidEnrolment(student, subject, es, c).message == NoMessage
  {
    var count := SubjectCount(es, subject.name);
    var max := subject.maxSubjectSize;
    if !RuleFires(1, student, subject, es, c) && !RuleFires(2, student, subject, es, c) {
      PercentageReached(count, max, c.rule3PercentageCapacity);
      PercentageReached(count, max, c.rule4PercentageCapacity);
      PercentageReached(count, max, c.rule5PercentageCapacity);
    }
    var fires := j => RuleFires(j, student, subject, es, c);
    assert (forall j :: 1 <= j <= 5 ==> !fires(j))
        <==> !fires(1) && !fires(2) && !fires(3) && !fires(4) && !fires(5);
  }

  /** Rule 1 comes first: a ranking outside 0..100 is code 1 whatever the
      subject, the enrolments and the thresholds. */
  lemma InvalidRankingRejected(student: Student, subject: Subject, es: seq<Enrolment>, c: EnrolmentConfig)
    requires student.ranking < 0 || student.ranking > 100
    ensures IsValidEnrolment(student, subject, es, c) == Outcome(1, InvalidRanking(student.studentNumber))
  {
  }

  /** Rule 2 comes before the category gates: a valid ranking into a subject
      at or over capacity is code 2, even where rules 3..5 would pass. */
  lemma FullSubjectRejected(student: Student, subject: Subject, es: seq<Enrolment>, c: EnrolmentConfig)
    requires 0 <= student.ranking <= 100
    requires SubjectCount(es, subject.name) >= subject.maxSubjectSize
    ensures IsValidEnrolment(student, subject, es, c).code == 2
  {
  }

  /** A non-positive capacity never reaches the division: every such
      subject is full, so a candidate with a valid ranking gets code 2. */
  lemma NonPositiveCapacityIsFull(student: Student, subject: Subject, es: seq<Enrolment>, c: EnrolmentConfig)
    requires 0 <= student.ranking <= 100
    requires subject.maxSubjectSize <= 0
    ensures IsValidEnrolment(student, subject, es, c).code == 2
  {
  }

  /** Codes 3, 4 and 5 belong to Programming, Design and Literature
      subjects respectively; an Unknown subject only ever gets 0, 1 or 2. */
  lemma CategoryGates(student: Student, subject: Subject, es: seq<Enrolment>, c: EnrolmentConfig)
    ensures IsValidEnrolment(student, subject, es, c).code == 3 ==> subject.subjectType == Programming
    ensures IsValidEnrolment(student, subject, es, c).code == 4 ==> subject.subjectType == Design
    ensures IsValidEnrolment(student, subject, es, c).code == 5 ==> subject.subjectType == Literature
    ensures subject.subjectType == Unknown ==> IsValidEnrolment(student, subject, es, c).code <= 2
  {
  }

  /** An accepted candidate has a valid ranking and its subject had a free
      place: the count is below a positive capacity. */
  lemma AcceptedBelowCapacity(student: Student, subject: Subject, es: seq<Enrolment>, c: EnrolmentConfig)
    requires IsValidEnrolment(student, subject, es, c).code == 0
    ensures 0 <= student.ranking <= 100
    ensures SubjectCount(es, subject.name) < subject.maxSubjectSize
    ensures subject.maxSubjectSize > 0
  {
  }
}
