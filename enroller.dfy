/** The enrolment loop: every candidate, in input order, is put to a
    validator against the enrolments accepted so far; acceptances grow the
    enrolment list and every decision is logged. */
module StudentEnroller {
  import opened Entities
  import opened EnrolmentValidator

  /** A validator that can be plugged into the loop. */
  type Validator = (Student, Subject, seq<Enrolment>, EnrolmentConfig) -> Outcome

  /** What the loop returns: one log entry per candidate and the enrolments. */
  datatype EnrolResult = EnrolResult(log: seq<Outcome>, enrolments: seq<Enrolment>)

  /** The log entry written on acceptance (the validator's own empty message
      is replaced by one naming the student and the subject). */
  function SuccessEntry(p: Candidate): (r: Outcome)
    ensures r.code == 0 && r.message != NoMessage
  {
    Outcome(0, Enrolled(p.student.studentNumber, p.subject.name))
  }

  /** The enrolment created on acceptance. */
  function NewEnrolment(p: Candidate): (e: Enrolment)
  {
    Enrolment(p.student.studentNumber, p.subject.name)
  }

  /** One iteration of the loop: decide `p` against the current enrolments.
      Exactly one log entry is added; an enrolment is added exactly when the
      validator accepts, and the entry is the validator's verdict verbatim
      exactly when it rejects. */
  function Step(st: EnrolResult, p: Candidate, c: EnrolmentConfig, validate: Validator): (r: EnrolResult)
    ensures |r.log| == |st.log| + 1 && r.log[..|st.log|] == st.log
    ensures st.enrolments <= r.enrolments
    ensures var verdict := validate(p.student, p.subject, st.enrolments, c);
            (r.log[|st.log|].code == 0 <==> verdict.code == 0)
            && (verdict.code == 0 ==> r.enrolments == st.enrolments + [NewEnrolment(p)])
            && (verdict.code != 0 ==> r.log[|st.log|] == verdict && r.enrolments == st.enrolments)
  {
    var result := validate(p.student, p.subject, st.enrolments, c);
    if result.code == 0 then
      EnrolResult(st.log + [SuccessEntry(p)], st.enrolments + [NewEnrolment(p)])
    else
      EnrolResult(st.log + [result], st.enrolments)
  }

  /** The state after the loop has processed all of `pairs`, starting from
      the enrolments `init` and an empty log. */
  function Processed(pairs: seq<Candidate>, init: seq<Enrolment>, c: EnrolmentConfig, validate: Validator): (r: EnrolResult)
    ensures |r.log| == |pairs|
    ensures init <= r.enrolments
    ensures |r.enrolments| <= |init| + |pairs|
  {
    if pairs == [] then EnrolResult([], init)
    else Step(Processed(pairs[..|pairs| - 1], init, c, validate), pairs[|pairs| - 1], c, validate)
  }

  /** The enroller with an injected (pure) validator. */
  method Enrol(pairs: seq<Candidate>, enrolments: seq<Enrolment>, c: EnrolmentConfig, validate: Validator)
    returns (r: EnrolResult)
    ensures r == Processed(pairs, enrolments, c, validate)
    ensures |r.log| == |pairs|
    ensures enrolments <= r.enrolments
  {
    var es := enrolments;
    var log: seq<Outcome> := [];
    for i := 0 to |pairs|
      invariant EnrolResult(log, es) == Processed(pairs[..i], enrolments, c, validate)
    {
      var p := pairs[i];
      var result := validate(p.student, p.subject, es, c);
      if result.code == 0 {
        es := es + [Enrolment(p.student.studentNumber, p.subject.name)];
        log := log + [Outcome(result.code, Enrolled(p.student.studentNumber, p.subject.name))];
      } else {
        log := log + [result];
      }
      assert pairs[..i + 1][..i] == pairs[..i];
    }
    assert pairs[..|pairs|] == pairs;
    r := EnrolResult(log, es);
  }

  /** The enroller wired to the real validator. */
  method EnrolWithDefaultValidator(pairs: seq<Candidate>, enrolments: seq<Enrolment>, c: EnrolmentConfig)
    returns (r: EnrolResult)
    ensures r == Processed(pairs, enrolments, c, IsValidEnrolment)
    ensures |r.log| == |pairs|
    ensures enrolments <= r.enrolments
  {
    r := Enrol(pairs, enrolments, c, IsValidEnrolment);
  }

  /** Earlier decisions are never revisited: processing a prefix of the
      candidates yields a prefix of the log and of the enrolments. */
  lemma {:induction false} PrefixStable(pairs: seq<Candidate>, init: seq<Enrolment>, c: EnrolmentConfig, validate: Validator, i: nat)
    requires i <= |pairs|
    ensures Processed(pairs[..i], init, c, validate).log == Processed(pairs, init, c, validate).log[..i]
    ensures Processed(pairs[..i], init, c, validate).enrolments <= Processed(pairs, init, c, validate).enrolments
  {
    if i < |pairs| {
      var n := |pairs|;
      var front := pairs[..n - 1];
      assert front[..i] == pairs[..i];
      PrefixStable(front, init, c, validate, i);
      var before := Processed(front, init, c, validate);
      assert Processed(pairs, init, c, validate).log[..n - 1] == before.log;
    } else {
      assert pairs[..i] == pairs;
    }
  }

  /** Log entry `i` records the decision on candidate `i` taken against the
      enrolments accumulated before it: a success entry when the validator
      accepted, the validator's outcome verbatim when it rejected. */
  lemma LogEntry(pairs: seq<Candidate>, init: seq<Enrolment>, c: EnrolmentConfig, validate: Validator, i: nat)
    requires i < |pairs|
    ensures var verdict := validate(pairs[i].student, pairs[i].subject,
                                    Processed(pairs[..i], init, c, validate).enrolments, c);
            var entry := Processed(pairs, init, c, validate).log[i];
            (entry.code == 0 <==> verdict.code == 0)
            && (verdict.code == 0 ==> entry == SuccessEntry(pairs[i]))
            && (verdict.code != 0 ==> entry == verdict)
  {
    PrefixStable(pairs, init, c, validate, i + 1);
    assert pairs[..i + 1][..i] == pairs[..i];
  }

  /** The enrolments appended for the accepted candidates, in log order. */
  function Accepted(pairs: seq<Candidate>, log: seq<Outcome>): (r: seq<Enrolment>)
    requires |pairs| == |log|
    ensures |r| <= |pairs|
  {
    if pairs == [] then []
    else
      var n := |pairs|;
      Accepted(pairs[..n - 1], log[..n - 1]) + (if log[n - 1].code == 0 then [NewEnrolment(pairs[n - 1])] else [])
  }

  /** The final enrolments are the initial ones, untouched, followed by one
      new enrolment per accepting log entry, in log order. */
  lemma {:induction false} EnrolmentsAreAcceptances(pairs: seq<Candidate>, init: seq<Enrolment>, c: EnrolmentConfig, validate: Validator)
    ensures var r := Processed(pairs, init, c, validate);
            r.enrolments == init + Accepted(pairs, r.log)
  {
    if pairs != [] {
      var n := |pairs|;
      var front := pairs[..n - 1];
      EnrolmentsAreAcceptances(front, init, c, validate);
      var before := Processed(front, init, c, validate);
      var r := Processed(pairs, init, c, validate);
      assert r.log[..n - 1] == before.log;
      assert (r.log[n - 1].code == 0) == (validate(pairs[n - 1].student, pairs[n - 1].subject, before.enrolments, c).code == 0);
    }
  }

  /** With the real validator, a subject whose capacity is `max` wherever
      its name appears never goes over `max`, provided it started within it. */
  lemma {:induction false} SubjectStaysWithinCapacity(pairs: seq<Candidate>, init: seq<Enrolment>, c: EnrolmentConfig, name: string, max: int)
    requires SubjectCount(init, name) <= max
    requires forall i :: 0 <= i < |pairs| && pairs[i].subject.name == name ==> pairs[i].subject.maxSubjectSize == max
    ensures SubjectCount(Processed(pairs, init, c, IsValidEnrolment).enrolments, name) <= max
  {
    if pairs != [] {
      var n := |pairs|;
      var front := pairs[..n - 1];
      var p := pairs[n - 1];
      SubjectStaysWithinCapacity(front, init, c, name, max);
      var before := Processed(front, init, c, IsValidEnrolment);
      if IsValidEnrolment(p.student, p.subject, before.enrolments, c).code == 0 {
        AcceptedBelowCapacity(p.student, p.subject, before.enrolments, c);
        SubjectCountPush(before.enrolments, NewEnrolment(p), name);
      }
    }
  }

  /** Names identify subjects' capacities: two candidates naming the same
      subject agree on its capacity. */
  ghost predicate CapacitiesAgree(pairs: seq<Candidate>)
  {
    forall i, j :: 0 <= i < |pairs| && 0 <= j < |pairs| && pairs[i].subject.name == pairs[j].subject.name
      ==> pairs[i].subject.maxSubjectSize == pairs[j].subject.maxSubjectSize
  }

  /** Every candidate's subject is within its capacity in `es`. */
  ghost predicate WithinCapacity(es: seq<Enrolment>, pairs: seq<Candidate>)
  {
    forall i :: 0 <= i < |pairs| ==> SubjectCount(es, pairs[i].subject.name) <= pairs[i].subject.maxSubjectSize
  }

  /** With the real validator, if every subject starts within its capacity
      then every subject ends within it. */
  lemma CapacityPreserved(pairs: seq<Candidate>, init: seq<Enrolment>, c: EnrolmentConfig)
    requires CapacitiesAgree(pairs)
    requires WithinCapacity(init, pairs)
    ensures WithinCapacity(Processed(pairs, init, c, IsValidEnrolment).enrolments, pairs)
  {
    forall i | 0 <= i < |pairs|
      ensures SubjectCount(Processed(pairs, init, c, IsValidEnrolment).enrolments, pairs[i].subject.name)
              <= pairs[i].subject.maxSubjectSize
    {
      SubjectStaysWithinCapacity(pairs, init, c, pairs[i].subject.name, pairs[i].subject.maxSubjectSize);
    }
  }

  /** A subject no candidate names keeps the count it started with. */
  lemma {:induction false} UntouchedSubjectUnchanged(pairs: seq<Candidate>, init: seq<Enrolment>, c: EnrolmentConfig, validate: Validator, name: string)
    requires forall i :: 0 <= i < |pairs| ==> pairs[i].subject.name != name
    ensures SubjectCount(Processed(pairs, init, c, validate).enrolments, name) == SubjectCount(init, name)
  {
    if pairs != [] {
      var n := |pairs|;
      var front := pairs[..n - 1];
      UntouchedSubjectUnchanged(front, init, c, validate, name);
      var before := Processed(front, init, c, validate);
      SubjectCountPush(before.enrolments, NewEnrolment(pairs[n - 1]), name);
    }
  }
  /** A worked run with the thresholds the console program uses (50%, 70,
      50%, 50%): two students apply for a Programming subject of capacity 2.
      The first is let in at 0% full; at 50% full the second is rejected
      under rule 3 when ranked below 70 and accepted when ranked 70. */
  lemma Rule3Scenario(first: Student, second: Student)
    requires 0 <= first.ranking <= 100
    requires 0 <= second.ranking <= 100
    ensures var c := EnrolmentConfig(50.0, 70, 50.0, 50.0);
            var algorithms := Subject("Algorithms", Programming, 2);
            var r := Processed([Candidate(first, algorithms), Candidate(second, algorithms)], [], c, IsValidEnrolment);
            r.log[0] == Outcome(0, Enrolled(first.studentNumber, algorithms.name))
            && (r.log[1].code == 3 <==> second.ranking < 70)
            && (second.ranking >= 70 ==> r.enrolments == [Enrolment(first.studentNumber, algorithms.name),
                                                          Enrolment(second.studentNumber, algorithms.name)])
  {
    var c := EnrolmentConfig(50.0, 70, 50.0, 50.0);
    var algorithms := Subject("Algorithms", Programming, 2);
    var pairs := [Candidate(first, algorithms), Candidate(second, algorithms)];
    assert pairs[..1] == [Candidate(first, algorithms)];
    assert [Candidate(first, algorithms)][..0] == [];
    var once := Processed(pairs[..1], [], c, IsValidEnrolment);
    assert SubjectCount(once.enrolments, algorithms.name) == 1;
  }
}
