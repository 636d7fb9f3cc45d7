/** The database module: the six DAOs over one store, `upload_data`, the export join,
    `delete_entry` and `delete_user`, each changing the store in place. */
module Database {
  import opened Records
  import opened Utils
  import opened Tables
  import opened Fanout
  import opened Flatten
  import opened Deletion

  /** A Django user account. */
  datatype Account = Account(username: string, email: string)

  /** A Faculty profile, one per user. */
  datatype Profile = Profile(lastUploaded: Value)

  /** What a DAO `update` returns: the saved instance, None for a missing id, or the
      field-keyed errors. */
  datatype Updated = Updated(fields: Record) | NotFound | Rejected(errors: FieldErrors)

  /** The application's database: the six correlation tables, the user accounts by id and
      the Faculty profiles by the id of their user. */
  class Store {
    var tables: Tables
    var users: map<nat, Account>
    var faculty: map<nat, Profile>
    /** The six models' `full_clean`. */
    const fullClean: Validator
    /** The helpers of the utils module. */
    const utils: Helpers

    /** The six tables are well formed and every profile belongs to an existing user. */
    ghost predicate Valid()
      reads this
    {
      tables.Valid() && faculty.Keys <= users.Keys
    }

    /** An empty database. */
    constructor (fullClean: Validator, utils: Helpers)
      ensures Valid()
      ensures tables == Purged && users == map[] && faculty == map[]
      ensures this.fullClean == fullClean && this.utils == utils
    {
      tables := Purged;
      users := map[];
      faculty := map[];
      this.fullClean := fullClean;
      this.utils := utils;
    }

    /** DAO `insert(**data)` on table `k`: validate, then save under the next id. */
    method Insert(k: Kind, data: Record) returns (r: Saved)
      requires Valid()
      modifies this
      ensures Valid()
      ensures users == old(users) && faculty == old(faculty)
      ensures tables.Get(k) == old(tables).Get(k).Insert(data, fullClean(k, data)).0
      ensures forall j :: j != k ==> tables.Get(j) == old(tables).Get(j)
      ensures r == old(tables).Get(k).Insert(data, fullClean(k, data)).1
    {
      var t := tables.Get(k);
      match fullClean(k, data)
      case Some(errors) =>
        r := Invalid(errors);
      case None =>
        tables := tables.Set(k, Table(t.rows[t.nextId := data], t.nextId + 1));
        r := Saved(t.nextId, data);
    }

    /** DAO `update(pk, **kwargs)` on table `k`: fetch the row, set each keyword as an
        attribute, validate, save. A missing id yields None; a failed validation the
        field-keyed errors, with nothing saved. */
    method Update(k: Kind, pk: nat, kwargs: map<string, Value>) returns (r: Updated)
      requires Valid()
      modifies this
      ensures Valid()
      ensures users == old(users) && faculty == old(faculty)
      ensures pk !in old(tables.Get(k).rows) ==> r == NotFound && tables == old(tables)
      ensures pk in old(tables.Get(k).rows) ==>
        var t := old(tables.Get(k));
        var obj := t.rows[pk] + kwargs;
        && (fullClean(k, obj).None? ==>
              r == Updated(obj) && tables == old(tables).Set(k, Table(t.rows[pk := obj], t.nextId)))
        && (fullClean(k, obj).Some? ==>
              r == Rejected(fullClean(k, obj).value) && tables == old(tables))
    {
      var t := tables.Get(k);
      if pk !in t.rows {
        return NotFound;
      }
      var obj := t.rows[pk];
      var rest := kwargs.Keys;
      while rest != {}
        invariant rest <= kwargs.Keys
        invariant obj == t.rows[pk] + map f | f in kwargs.Keys - rest :: kwargs[f]
        decreases rest
      {
        var key :| key in rest;
        obj := obj[key := kwargs[key]];
        rest := rest - {key};
      }
      assert kwargs == map f | f in kwargs.Keys - rest :: kwargs[f];
      match fullClean(k, obj)
      case Some(errors) =>
        r := Rejected(errors);
      case None =>
        tables := tables.Set(k, Table(t.rows[pk := obj], t.nextId));
        r := Updated(obj);
    }

    /** DAO `delete(pk)` on table `k`: True when the row existed and is now gone; a
        missing id returns False and changes nothing. */
    method Delete(k: Kind, pk: nat) returns (found: bool)
      requires Valid()
      modifies this
      ensures Valid()
      ensures users == old(users) && faculty == old(faculty)
      ensures found == old(tables).Get(k).Delete(pk).1
      ensures found ==> tables == old(tables).Set(k, old(tables).Get(k).Delete(pk).0)
      ensures !found ==> tables == old(tables)
    {
      var t := tables.Get(k);
      if pk in t.rows {
        tables := tables.Set(k, Table(t.rows - {pk}, t.nextId));
        found := true;
      } else {
        found := false;
      }
    }

    /** `upload_data` for one student row: the cohort, then the achievement level, then the
        six inserts in the fixed order, each attempted whatever became of the previous. */
    method UploadData(a: Assessment, s: StudentRow, now: Value) returns (attempts: seq<Attempt>)
      requires Valid()
      modifies this
      ensures Valid()
      ensures users == old(users) && faculty == old(faculty)
      ensures (tables, attempts) == Upload(old(tables), fullClean, utils, a, s, now)
    {
      attempts := [];
      var cohort := utils.getCohort(a.progTerm, a.term, a.program);
      if cohort.None? {
        return;
      }
      var level := utils.achievementLevel(s.gaiScore, a.questionMax);
      if level.None? {
        return;
      }
      attempts := InsertGroup(Group(a, s, utils, Derived(cohort.value, level.value), now));
    }

    /** Lines 46-118: the six inserts of one group in the fixed order, each attempted
        whatever became of the previous; a failure is only reported. */
    method InsertGroup(group: Kind -> Record) returns (attempts: seq<Attempt>)
      requires Valid()
      modifies this
      ensures Valid()
      ensures users == old(users) && faculty == old(faculty)
      ensures (tables, attempts) == FanOut(old(tables), fullClean, group)
    {
      ghost var db := tables;
      var r := Insert(DataProcess, group(DataProcess));
      attempts := [Attempt(DataProcess, r)];
      assert r == db.Get(DataProcess).Insert(group(DataProcess), fullClean(DataProcess, group(DataProcess))).1;
      assert tables.Get(DataProcess) == db.Get(DataProcess).Insert(group(DataProcess), fullClean(DataProcess, group(DataProcess))).0;
      r := Insert(FacultyCI, group(FacultyCI));
      attempts := attempts + [Attempt(FacultyCI, r)];
      assert r == db.Get(FacultyCI).Insert(group(FacultyCI), fullClean(FacultyCI, group(FacultyCI))).1;
      assert tables.Get(FacultyCI) == db.Get(FacultyCI).Insert(group(FacultyCI), fullClean(FacultyCI, group(FacultyCI))).0;
      r := Insert(ProgramCI, group(ProgramCI));
      attempts := attempts + [Attempt(ProgramCI, r)];
      assert r == db.Get(ProgramCI).Insert(group(ProgramCI), fullClean(ProgramCI, group(ProgramCI))).1;
      assert tables.Get(ProgramCI) == db.Get(ProgramCI).Insert(group(ProgramCI), fullClean(ProgramCI, group(ProgramCI))).0;
      r := Insert(AssessValidity, group(AssessValidity));
      attempts := attempts + [Attempt(AssessValidity, r)];
      assert r == db.Get(AssessValidity).Insert(group(AssessValidity), fullClean(AssessValidity, group(AssessValidity))).1;
      assert tables.Get(AssessValidity) == db.Get(AssessValidity).Insert(group(AssessValidity), fullClean(AssessValidity, group(AssessValidity))).0;
      r := Insert(AccredReport, group(AccredReport));
      attempts := attempts + [Attempt(AccredReport, r)];
      assert r == db.Get(AccredReport).Insert(group(AccredReport), fullClean(AccredReport, group(AccredReport))).1;
      assert tables.Get(AccredReport) == db.Get(AccredReport).Insert(group(AccredReport), fullClean(AccredReport, group(AccredReport))).0;
      r := Insert(AnnualReport, group(AnnualReport));
      attempts := attempts + [Attempt(AnnualReport, r)];
      assert r == db.Get(AnnualReport).Insert(group(AnnualReport), fullClean(AnnualReport, group(AnnualReport))).1;
      assert tables.Get(AnnualReport) == db.Get(AnnualReport).Insert(group(AnnualReport), fullClean(AnnualReport, group(AnnualReport))).0;
      assert attempts == FanOut(db, fullClean, group).1;
      TablesEqual(tables, FanOut(db, fullClean, group).0);
    }

    /** `get_flattened_data_for_export`: walk the DataProcess ids newest first, fetch the
        id from all six tables, decrypt, append the row; skip the id on any exception. */
    method GetFlattenedDataForExport() returns (results: seq<FlatRow>)
      requires Valid()
      ensures results == Flattened(tables, utils)
    {
      var ids := tables.dp.NewestFirst();
      results := [];
      var i := 0;
      while i < |ids|
        invariant 0 <= i <= |ids|
        invariant results == JoinAll(tables, utils, ids[..i])
      {
        var id := ids[i];
        assert ids[..i + 1] == ids[..i] + [id];
        JoinAllAppend(tables, utils, ids[..i], id);
        if tables.HasGroup(id) {
          var dp, fc, pc := tables.dp.rows[id], tables.fc.rows[id], tables.pc.rows[id];
          var av, ar, anr := tables.av.rows[id], tables.ar.rows[id], tables.anr.rows[id];
          if DecryptsOk(utils, fc, ar) {
            results := results + [JoinRecords(id, dp, fc, pc, av, ar, anr, utils)];
          }
        }
        i := i + 1;
      }
      assert ids[..i] == ids;
    }

    /** `delete_entry(id)`: the six DAO deletes in the fixed order, returning False at the
        first table that has no row `id`. */
    method DeleteEntry(id: nat) returns (ok: bool)
      requires Valid()
      modifies this
      ensures Valid()
      ensures users == old(users) && faculty == old(faculty)
      ensures (tables, ok) == DeleteGroup(old(tables), GroupOrder, id)
    {
      // `goal` is what the six deletes give; each step leaves the deletes still to come.
      ghost var goal := DeleteGroup(tables, GroupOrder, id);
      var found := DeleteStep(DataProcess, id, [FacultyCI, ProgramCI, AssessValidity, AccredReport, AnnualReport], goal);
      if !found { return false; }
      found := DeleteStep(FacultyCI, id, [ProgramCI, AssessValidity, AccredReport, AnnualReport], goal);
      if !found { return false; }
      found := DeleteStep(ProgramCI, id, [AssessValidity, AccredReport, AnnualReport], goal);
      if !found { return false; }
      found := DeleteStep(AssessValidity, id, [AccredReport, AnnualReport], goal);
      if !found { return false; }
      found := DeleteStep(AccredReport, id, [AnnualReport], goal);
      if !found { return false; }
      found := DeleteStep(AnnualReport, id, [], goal);
      if !found { return false; }
      return true;
    }

    /** One DAO delete of `delete_entry`, on table `k` with the tables `rest` still to
        come: a found row leaves the deletes of `rest` to do, a missing one ends with
        False and the tables as they are. */
    method DeleteStep(k: Kind, id: nat, ghost rest: seq<Kind>, ghost goal: (Tables, bool)) returns (found: bool)
      requires Valid() && goal == DeleteGroup(tables, [k] + rest, id)
      modifies this
      ensures Valid()
      ensures users == old(users) && faculty == old(faculty)
      ensures found ==> goal == DeleteGroup(tables, rest, id)
      ensures !found ==> goal == (tables, false)
    {
      DeleteGroupCons(tables, k, rest, id);
      found := Delete(k, id);
    }

    /** `delete_user(id)`: False and no change for an unknown user; otherwise the user's
        Faculty profile, if any, is deleted, then the user, and the result is True. */
    method DeleteUser(uid: nat) returns (ok: bool)
      requires Valid()
      modifies this
      ensures Valid()
      ensures tables == old(tables)
      ensures uid !in old(users) ==> !ok && users == old(users) && faculty == old(faculty)
      ensures uid in old(users) ==> ok && users == old(users) - {uid} && faculty == old(faculty) - {uid}
    {
      if uid !in users {
        return false;
      }
      if uid in faculty {
        faculty := faculty - {uid};
      }
      users := users - {uid};
      return true;
    }

    /** The upload's closing step for a user who is not a superuser:
        `Faculty.objects.get(user=...)`, then `last_uploaded` set to the clock and saved.
        False when the user has no profile (`DoesNotExist`), and then nothing changes. */
    method MarkUploaded(uid: nat, clock: Value) returns (found: bool)
      requires Valid()
      modifies this
      ensures Valid()
      ensures tables == old(tables) && users == old(users)
      ensures found <==> uid in old(faculty)
      ensures found ==> faculty == old(faculty)[uid := Profile(clock)]
      ensures !found ==> faculty == old(faculty)
    {
      if uid !in faculty {
        return false;
      }
      faculty := faculty[uid := Profile(clock)];
      return true;
    }
  }
}
