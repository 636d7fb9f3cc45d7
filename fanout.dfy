/** `upload_data`: one student row of an assessment fanned out into six independent inserts. */
module Fanout {
  import opened Records
  import opened Utils
  import opened Tables
  import opened Flatten

  /** The assessment-level arguments of `upload_data`, shared by every student row of one upload. */
  datatype Assessment = Assessment(
    program: Value, course: Value, term: Value, progTerm: Value,
    instrFirstName: Value, instrLastName: Value, ga: Value, gai: Value,
    instrLevel: Value, alignment: Value, clos: Value, assessType: Value,
    assessWeight: Value, assessMax: Value, totalScore: Value, questionMax: Value,
    assessTitle: Value, assessDescript: Value, questText: Value, instrComments: Value)

  /** One `(student_id, gai_score)` pair from the CSV reader. */
  datatype StudentRow = StudentRow(studentId: Value, gaiScore: Value)

  /** The cohort and the rounded achievement level, computed once per student row. */
  datatype Derived = Derived(cohort: Value, level: Value)

  /** What happened to one of the six inserts (the source prints the failures). */
  datatype Attempt = Attempt(kind: Kind, result: Saved)

  /** The validators of the six models (`full_clean`): None when the record passes. */
  type Validator = (Kind, Record) -> Option<FieldErrors>

  /** Lines 42-43: `get_cohort` and then the achievement level; either may raise. */
  function Derive(h: Helpers, a: Assessment, s: StudentRow): (r: Option<Derived>)
    ensures r.Some? <==> h.getCohort(a.progTerm, a.term, a.program).Some?
                         && h.achievementLevel(s.gaiScore, a.questionMax).Some?
    ensures r.Some? ==> r.value.cohort == h.getCohort(a.progTerm, a.term, a.program).value
                        && r.value.level == h.achievementLevel(s.gaiScore, a.questionMax).value
  {
    match h.getCohort(a.progTerm, a.term, a.program)
    case None => None
    case Some(cohort) =>
      match h.achievementLevel(s.gaiScore, a.questionMax)
      case None => None
      case Some(level) => Some(Derived(cohort, level))
  }

  /** Lines 46-115: the keyword arguments `upload_data` passes to the insert of table
      `k`, with the names, the student id and the score encrypted. `now` is the creation
      timestamp the database stamps on the DataProcess row. */
  function GroupRecord(k: Kind, a: Assessment, s: StudentRow, h: Helpers, d: Derived, now: Value): (r: Record)
    ensures "created_at" in r <==> k == DataProcess
  {
    match k
    case DataProcess =>
      map["term" := a.term, "program" := a.program, "course" := a.course, "gai" := a.gai,
          "created_at" := now]
    case FacultyCI =>
      map["course" := a.course, "term" := a.term,
          "instr_first_name" := h.encrypt(a.instrFirstName),
          "instr_last_name" := h.encrypt(a.instrLastName),
          "assess_title" := a.assessTitle, "gai_score" := h.encrypt(s.gaiScore),
          "total_score" := a.totalScore, "cohort" := d.cohort]
    case ProgramCI =>
      map["term" := a.term, "ga" := a.ga, "gai" := a.gai, "prog_term" := a.progTerm,
          "gai_score" := h.encrypt(s.gaiScore), "total_score" := a.totalScore,
          "achievement_level" := d.level, "cohort" := d.cohort]
    case AssessValidity =>
      map["gai" := a.gai, "ga" := a.ga, "course" := a.course, "question_max" := a.questionMax,
          "alignment" := a.alignment, "gai_score" := h.encrypt(s.gaiScore),
          "total_score" := a.totalScore, "assess_max" := a.assessMax,
          "assess_weight" := a.assessWeight, "assess_descript" := a.assessDescript,
          "clos" := a.clos]
    case AccredReport =>
      map["program" := a.program, "term" := a.term, "ga" := a.ga, "gai" := a.gai,
          "assess_type" := a.assessType, "quest_text" := a.questText,
          "alignment" := a.alignment, "instr_level" := a.instrLevel,
          "achievement_level" := d.level, "student_id" := h.encrypt(s.studentId)]
    case AnnualReport =>
      map["program" := a.program, "term" := a.term, "course" := a.course, "ga" := a.ga,
          "gai" := a.gai, "student_id" := h.encrypt(s.studentId),
          "achievement_level" := d.level, "assess_type" := a.assessType,
          "instr_comments" := a.instrComments]
  }

  /** The group's six records, by table. */
  function Group(a: Assessment, s: StudentRow, h: Helpers, d: Derived, now: Value): Kind -> Record
  {
    k => GroupRecord(k, a, s, h, d, now)
  }

  /** Every record of a group passes validation. */
  predicate AllValid(clean: Validator, group: Kind -> Record)
  {
    forall k :: clean(k, group(k)).None?
  }

  /** No record of a group passes validation. */
  predicate NoneValid(clean: Validator, group: Kind -> Record)
  {
    forall k :: clean(k, group(k)).Some?
  }

  /** Lines 46-118: six inserts in the fixed order, each into its own table and each
      validated on its own, so a failed insert never stops the later ones. */
  function FanOut(db: Tables, clean: Validator, group: Kind -> Record): (r: (Tables, seq<Attempt>))
    requires db.Valid()
    ensures r.0.Valid()
    ensures forall k :: r.0.Get(k) == db.Get(k).Insert(group(k), clean(k, group(k))).0
  {
    var r1 := db.Get(DataProcess).Insert(group(DataProcess), clean(DataProcess, group(DataProcess)));
    var r2 := db.Get(FacultyCI).Insert(group(FacultyCI), clean(FacultyCI, group(FacultyCI)));
    var r3 := db.Get(ProgramCI).Insert(group(ProgramCI), clean(ProgramCI, group(ProgramCI)));
    var r4 := db.Get(AssessValidity).Insert(group(AssessValidity), clean(AssessValidity, group(AssessValidity)));
    var r5 := db.Get(AccredReport).Insert(group(AccredReport), clean(AccredReport, group(AccredReport)));
    var r6 := db.Get(AnnualReport).Insert(group(AnnualReport), clean(AnnualReport, group(AnnualReport)));
    (Tables(r1.0, r2.0, r3.0, r4.0, r5.0, r6.0),
     [Attempt(DataProcess, r1.1), Attempt(FacultyCI, r2.1), Attempt(ProgramCI, r3.1),
      Attempt(AssessValidity, r4.1), Attempt(AccredReport, r5.1), Attempt(AnnualReport, r6.1)])
  }

  /** `upload_data` for one student row: the tables afterwards and the six attempts in
      order. A failed derivation is caught before any insert and changes nothing. */
  function Upload(db: Tables, clean: Validator, h: Helpers, a: Assessment, s: StudentRow, now: Value)
    : (r: (Tables, seq<Attempt>))
    requires db.Valid()
    ensures r.0.Valid()
    ensures Derive(h, a, s).None? ==> r == (db, [])
    ensures Derive(h, a, s).Some? ==> r == FanOut(db, clean, Group(a, s, h, Derive(h, a, s).value, now))
  {
    match Derive(h, a, s)
    case None => (db, [])
    case Some(d) => FanOut(db, clean, Group(a, s, h, d, now))
  }

  /** With the six sequences aligned and every record valid, the group lands on one id in
      all six tables and the sequences stay aligned. */
  lemma FanOutKeepsAlignment(db: Tables, clean: Validator, group: Kind -> Record)
    requires db.Valid() && db.Aligned()
    requires AllValid(clean, group)
    ensures var after := FanOut(db, clean, group).0;
      && after.Aligned()
      && after.HasGroup(db.dp.nextId)
      && after.dp.nextId == db.dp.nextId + 1
      && forall k :: after.Get(k).rows[db.dp.nextId] == group(k)
  {
    var after := FanOut(db, clean, group).0;
    forall k ensures after.Get(k).nextId == db.dp.nextId + 1
      && db.dp.nextId in after.Get(k).rows
      && after.Get(k).rows[db.dp.nextId] == group(k)
    {
      assert clean(k, group(k)).None?;
    }
  }

  /** From aligned sequences, the sequences are aligned after the fan-out exactly when all
      six inserts succeeded or all six failed: one failed insert among successful ones
      makes the counters diverge. */
  lemma FanOutAlignedExactly(db: Tables, clean: Validator, group: Kind -> Record)
    requires db.Valid() && db.Aligned()
    ensures FanOut(db, clean, group).0.Aligned() <==> (AllValid(clean, group) || NoneValid(clean, group))
  {
    var after := FanOut(db, clean, group).0;
    if after.Aligned() && !AllValid(clean, group) {
      var bad :| clean(bad, group(bad)).Some?;
      forall k ensures clean(k, group(k)).Some? {
        assert after.Get(k).nextId == after.dp.nextId == after.Get(bad).nextId;
      }
    }
    if AllValid(clean, group) {
      FanOutKeepsAlignment(db, clean, group);
    }
    if NoneValid(clean, group) {
      forall k ensures after.Get(k) == db.Get(k) {
        assert clean(k, group(k)).Some?;
      }
    }
  }

  /** A failed insert leaves its table without the id the DataProcess row took, so the
      group is incomplete and the join skips it. */
  lemma FailedInsertBreaksGroup(db: Tables, clean: Validator, group: Kind -> Record, bad: Kind)
    requires db.Valid() && db.Aligned()
    requires clean(bad, group(bad)).Some?
    ensures !FanOut(db, clean, group).0.HasGroup(db.dp.nextId)
  {
    var after := FanOut(db, clean, group).0;
    assert after.Get(bad) == db.Get(bad);
    assert db.dp.nextId !in db.Get(bad).rows;
  }

  /** Each record of a group holds every field the export join reads from its table, so
      the join of a complete group never meets a missing field. */
  lemma GroupRecordFields(k: Kind, a: Assessment, s: StudentRow, h: Helpers, d: Derived, now: Value)
    ensures ReadFields(k) <= GroupRecord(k, a, s, h, d, now).Keys
  {
    match k
    case DataProcess =>
    case FacultyCI =>
    case ProgramCI =>
    case AssessValidity =>
    case AccredReport =>
    case AnnualReport =>
  }

  /** Wherever a group stores the instructor's names, it stores them encrypted. */
  lemma GroupRecordEncryptsNames(k: Kind, a: Assessment, s: StudentRow, h: Helpers, d: Derived, now: Value)
    ensures "instr_first_name" in GroupRecord(k, a, s, h, d, now) ==>
              GroupRecord(k, a, s, h, d, now)["instr_first_name"] == h.encrypt(a.instrFirstName)
    ensures "instr_last_name" in GroupRecord(k, a, s, h, d, now) ==>
              GroupRecord(k, a, s, h, d, now)["instr_last_name"] == h.encrypt(a.instrLastName)
  {
    match k
    case DataProcess =>
    case FacultyCI =>
    case ProgramCI =>
    case AssessValidity =>
    case AccredReport =>
    case AnnualReport =>
  }

  /** Wherever a group stores the student id or the score, it stores them encrypted. */
  lemma GroupRecordEncryptsStudent(k: Kind, a: Assessment, s: StudentRow, h: Helpers, d: Derived, now: Value)
    ensures "student_id" in GroupRecord(k, a, s, h, d, now) ==>
              GroupRecord(k, a, s, h, d, now)["student_id"] == h.encrypt(s.studentId)
    ensures "gai_score" in GroupRecord(k, a, s, h, d, now) ==>
              GroupRecord(k, a, s, h, d, now)["gai_score"] == h.encrypt(s.gaiScore)
  {
    match k
    case DataProcess =>
    case FacultyCI =>
    case ProgramCI =>
    case AssessValidity =>
    case AccredReport =>
    case AnnualReport =>
  }

  /** The cohort is computed once and goes to FacultyCI and ProgramCI alike; the achievement
      level goes to ProgramCI, AccredReport and AnnualReport alike. */
  lemma GroupSharesDerivations(a: Assessment, s: StudentRow, h: Helpers, d: Derived, now: Value)
    ensures GroupRecord(FacultyCI, a, s, h, d, now)["cohort"] == d.cohort
    ensures GroupRecord(ProgramCI, a, s, h, d, now)["cohort"] == d.cohort
    ensures GroupRecord(ProgramCI, a, s, h, d, now)["achievement_level"] == d.level
    ensures GroupRecord(AccredReport, a, s, h, d, now)["achievement_level"] == d.level
    ensures GroupRecord(AnnualReport, a, s, h, d, now)["achievement_level"] == d.level
  {
  }

  /** Every insert that succeeds stores exactly the record the group built for its table,
      under the id its own sequence handed out; a failed derivation changes no table. */
  lemma UploadStoresGroup(db: Tables, clean: Validator, h: Helpers, a: Assessment, s: StudentRow, now: Value, k: Kind)
    requires db.Valid()
    ensures var after := Upload(db, clean, h, a, s, now).0;
      && (Derive(h, a, s).None? ==> after == db)
      && (Derive(h, a, s).Some? && db.Get(k).nextId in after.Get(k).rows ==>
            after.Get(k).rows[db.Get(k).nextId] == GroupRecord(k, a, s, h, Derive(h, a, s).value, now))
  {
    var after := Upload(db, clean, h, a, s, now).0;
    if Derive(h, a, s).Some? {
      var group := Group(a, s, h, Derive(h, a, s).value, now);
      assert after.Get(k) == db.Get(k).Insert(group(k), clean(k, group(k))).0;
      assert db.Get(k).nextId !in db.Get(k).rows;
    }
  }

  /** The attempt log: the six inserts in the fixed order, each saved under its own
      table's next id exactly when its record validates, and otherwise reporting the
      validator's field errors. */
  lemma FanOutAttempts(db: Tables, clean: Validator, group: Kind -> Record)
    requires db.Valid()
    ensures var attempts := FanOut(db, clean, group).1;
      && |attempts| == |GroupOrder|
      && forall i :: 0 <= i < |attempts| ==>
           var k := GroupOrder[i];
           && attempts[i].kind == k
           && (clean(k, group(k)).None? ==> attempts[i].result == Saved(db.Get(k).nextId, group(k)))
           && (clean(k, group(k)).Some? ==> attempts[i].result == Invalid(clean(k, group(k)).value))
  {
    var attempts := FanOut(db, clean, group).1;
    forall i | 0 <= i < |attempts|
      ensures var k := GroupOrder[i];
        && attempts[i].kind == k
        && attempts[i].result == db.Get(k).Insert(group(k), clean(k, group(k))).1
    {
    }
    forall k {
      InsertSemantics(db.Get(k), group(k), clean(k, group(k)));
    }
  }

  /** The fan-out only adds rows: every row present before is present, unchanged, after. */
  lemma FanOutKeepsRows(db: Tables, clean: Validator, group: Kind -> Record)
    requires db.Valid()
    ensures forall k, id :: id in db.Get(k).rows ==>
      id in FanOut(db, clean, group).0.Get(k).rows && FanOut(db, clean, group).0.Get(k).rows[id] == db.Get(k).rows[id]
  {
    forall k {
      InsertSemantics(db.Get(k), group(k), clean(k, group(k)));
    }
  }

  /** One upload whose derivation succeeds and whose six records validate, from aligned
      sequences: the group lands on the next id in all six tables, the sequences stay
      aligned one further on, and every group complete before is complete after. */
  lemma UploadKeepsAlignment(db: Tables, clean: Validator, h: Helpers, a: Assessment, s: StudentRow, now: Value)
    requires db.Valid() && db.Aligned()
    requires Derive(h, a, s).Some? && AllValid(clean, Group(a, s, h, Derive(h, a, s).value, now))
    ensures var after := Upload(db, clean, h, a, s, now).0;
      && after.Aligned()
      && after.dp.nextId == db.dp.nextId + 1
      && after.HasGroup(db.dp.nextId)
      && forall id :: db.HasGroup(id) ==> after.HasGroup(id)
  {
    var group := Group(a, s, h, Derive(h, a, s).value, now);
    FanOutKeepsAlignment(db, clean, group);
    FanOutKeepsRows(db, clean, group);
  }

  /** Under the same conditions, each of the six tables holds its own record of the
      group on that id, and every row present before stays, unchanged. */
  lemma UploadPlacesGroup(db: Tables, clean: Validator, h: Helpers, a: Assessment, s: StudentRow, now: Value)
    requires db.Valid() && db.Aligned()
    requires Derive(h, a, s).Some? && AllValid(clean, Group(a, s, h, Derive(h, a, s).value, now))
    ensures forall k :: RowAt(Upload(db, clean, h, a, s, now).0.Get(k), db.dp.nextId)
                        == Some(GroupRecord(k, a, s, h, Derive(h, a, s).value, now))
    ensures forall k, id :: id in db.Get(k).rows ==>
              RowAt(Upload(db, clean, h, a, s, now).0.Get(k), id) == RowAt(db.Get(k), id)
  {
    var group := Group(a, s, h, Derive(h, a, s).value, now);
    FanOutKeepsAlignment(db, clean, group);
    FanOutKeepsRows(db, clean, group);
  }
}
