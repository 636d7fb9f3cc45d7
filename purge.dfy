/** The purge script: every row of the six correlation tables deleted, then the six id
    sequences restarted at 1. */
module Purge {
  import opened Records
  import opened Utils
  import opened Tables
  import opened Fanout
  import opened Flatten
  import opened Database
  import opened Views

  /** Lines 4-17, in the script's order: `objects.all().delete()` on DataProcess,
      ProgramCI, FacultyCI, AssessValidity, AccredReport and AnnualReport, then
      `ALTER SEQUENCE ... RESTART WITH 1` on the six sequences in the same order. Accounts
      and Faculty profiles are not touched. */
  method Purge(store: Store)
    requires store.Valid()
    modifies store
    ensures store.Valid()
    ensures store.tables == Purged
    ensures store.users == old(store.users) && store.faculty == old(store.faculty)
  {
    // Lines 4-9: the rows go, the sequences keep their values.
    store.tables := store.tables.Set(DataProcess, Table(map[], store.tables.dp.nextId));
    store.tables := store.tables.Set(ProgramCI, Table(map[], store.tables.pc.nextId));
    store.tables := store.tables.Set(FacultyCI, Table(map[], store.tables.fc.nextId));
    store.tables := store.tables.Set(AssessValidity, Table(map[], store.tables.av.nextId));
    store.tables := store.tables.Set(AccredReport, Table(map[], store.tables.ar.nextId));
    store.tables := store.tables.Set(AnnualReport, Table(map[], store.tables.anr.nextId));
    // Lines 11-17: each sequence restarts at 1.
    store.tables := store.tables.Set(DataProcess, Table(store.tables.dp.rows, 1));
    store.tables := store.tables.Set(ProgramCI, Table(store.tables.pc.rows, 1));
    store.tables := store.tables.Set(FacultyCI, Table(store.tables.fc.rows, 1));
    store.tables := store.tables.Set(AssessValidity, Table(store.tables.av.rows, 1));
    store.tables := store.tables.Set(AccredReport, Table(store.tables.ar.rows, 1));
    store.tables := store.tables.Set(AnnualReport, Table(store.tables.anr.rows, 1));
    TablesEqual(store.tables, Purged);
  }

  /** After the purge every table is empty, every sequence stands at 1, and so the six
      sequences are aligned. */
  lemma PurgedIsEmptyAndAligned()
    ensures Purged.Valid() && Purged.Aligned()
    ensures forall k :: Purged.Get(k).rows == map[] && Purged.Get(k).nextId == 1
    ensures forall id :: !Purged.HasGroup(id)
  {
    forall k ensures Purged.Get(k) == Fresh {
      match k
      case DataProcess =>
      case FacultyCI =>
      case ProgramCI =>
      case AssessValidity =>
      case AccredReport =>
      case AnnualReport =>
    }
  }

  /** The first insert that passes validation after the purge gets id 1, in any of the six
      tables; one that fails leaves the table empty. */
  lemma FirstInsertAfterPurge(k: Kind, data: Record, verdict: Option<FieldErrors>)
    ensures Purged.Get(k).Valid()
    ensures verdict.None? ==> Purged.Get(k).Insert(data, verdict) == (Table(map[1 := data], 2), Saved(1, data))
    ensures verdict.Some? ==> Purged.Get(k).Insert(data, verdict) == (Purged.Get(k), Invalid(verdict.value))
  {
    PurgedIsEmptyAndAligned();
  }

  /** The flattened view of the purged store is empty. */
  lemma FlattenedAfterPurge(h: Helpers)
    ensures Purged.Valid()
    ensures Flattened(Purged, h) == [] && ViewIds(Purged, h) == []
  {
    PurgedIsEmptyAndAligned();
    assert Purged.dp.NewestFirst() == [];
  }

  /** Uploading student rows after the purge, each deriving and validating, puts the group
      of the i-th row (counting from 0) on id i + 1, each of the six tables holding its
      record of that group there, and leaves the sequences aligned. */
  lemma UploadAfterPurge(clean: Validator, h: Helpers, a: Assessment, rows: seq<StudentRow>, now: Value)
    requires forall s :: s in rows ==> Derive(h, a, s).Some? && AllValid(clean, Group(a, s, h, Derive(h, a, s).value, now))
    ensures UploadAll(Purged, clean, h, a, rows, now).Aligned()
    ensures UploadAll(Purged, clean, h, a, rows, now).dp.nextId == |rows| + 1
    ensures forall id :: 1 <= id <= |rows| ==> UploadAll(Purged, clean, h, a, rows, now).HasGroup(id)
    ensures forall k, i :: 0 <= i < |rows| ==>
              RowAt(UploadAll(Purged, clean, h, a, rows, now).Get(k), i + 1)
              == Some(GroupRecord(k, a, rows[i], h, Derive(h, a, rows[i]).value, now))
  {
    PurgedIsEmptyAndAligned();
    UploadAllKeepsAlignment(Purged, clean, h, a, rows, now);
    UploadAllPlacesGroups(Purged, clean, h, a, rows, now);
  }
}
