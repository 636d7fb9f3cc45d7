/** `get_flattened_data_for_export`: the six tables joined on the shared id, one
    decrypted 26-field row per complete group, newest first. */
module Flatten {
  import opened Records
  import opened Utils
  import opened Tables

  /** One flattened row: the dictionary the join builds, field name to value. */
  type FlatRow = map<string, Value>

  /** The export field order. */
  const FieldNames: seq<string> := [
    "id", "term", "cohort", "program", "prog_term",
    "course", "instr_first_name", "instr_last_name", "student_id",
    "ga", "gai", "achievement_level", "instr_level",
    "assess_title", "assess_type", "assess_descript", "assess_weight", "assess_max",
    "alignment", "clos", "total_score", "gai_score", "quest_text",
    "question_max", "instr_comments", "created_at"]

  /** No field name is given twice. */
  lemma FieldNamesDistinct()
    ensures forall i, j :: 0 <= i < j < |FieldNames| ==> FieldNames[i] != FieldNames[j]
  {
  }

  /** The four decryptions of a group all succeed. */
  predicate DecryptsOk(h: Helpers, fc: Record, ar: Record)
  {
    && h.decryptText(Field(fc, "instr_first_name")).Some?
    && h.decryptText(Field(fc, "instr_last_name")).Some?
    && h.decryptText(Field(ar, "student_id")).Some?
    && h.decryptDecimal(Field(fc, "gai_score")).Some?
  }

  /** The join of one id yields a row: all six tables hold it and the decryptions succeed. */
  predicate Joins(db: Tables, h: Helpers, id: nat)
  {
    db.HasGroup(id) && DecryptsOk(h, db.fc.rows[id], db.ar.rows[id])
  }

  /** The fields `JoinRecords` reads from the record of each table. */
  function ReadFields(k: Kind): set<string>
  {
    match k
    case DataProcess => {"term", "program", "course", "created_at"}
    case FacultyCI => {"instr_first_name", "instr_last_name", "gai_score", "assess_title", "total_score"}
    case ProgramCI => {"cohort", "prog_term", "achievement_level"}
    case AssessValidity => {"assess_descript", "assess_weight", "assess_max", "alignment", "clos", "question_max"}
    case AccredReport => {"student_id", "ga", "gai", "instr_level", "assess_type", "quest_text"}
    case AnnualReport => {"instr_comments"}
  }

  /** The dictionary that pairs each name with the value at the same place: a dict
      literal written as its keys and its values. For a name given twice the first
      occurrence wins here, where Python keeps the last; the names passed in are distinct
      (`FieldNamesDistinct`), so the two agree. */
  function Zip(names: seq<string>, values: seq<Value>): (r: map<string, Value>)
    requires |names| == |values|
    ensures r.Keys == set n | n in names
    ensures forall i :: 0 <= i < |names| && names[i] !in names[..i] ==> r[names[i]] == values[i]
  {
    if names == [] then map[]
    else
      var tail := Zip(names[1..], values[1..]);
      ZipStep(names, values, tail);
      tail[names[0] := values[0]]
  }

  /** One more name in front: it takes its own value and leaves the other names' alone. */
  lemma ZipStep(names: seq<string>, values: seq<Value>, tail: map<string, Value>)
    requires |names| == |values| && names != []
    requires tail.Keys == set n | n in names[1..]
    requires forall i :: 0 <= i < |names| - 1 && names[1..][i] !in names[1..][..i] ==> tail[names[1..][i]] == values[1..][i]
    ensures tail[names[0] := values[0]].Keys == set n | n in names
    ensures forall i :: 0 <= i < |names| && names[i] !in names[..i] ==> tail[names[0] := values[0]][names[i]] == values[i]
  {
    var r := tail[names[0] := values[0]];
    forall n ensures n in r <==> n in names {
      if n in names && n != names[0] {
        var k :| 0 <= k < |names| && names[k] == n;
        assert names[1..][k - 1] == n;
      }
    }
    forall i | 0 <= i < |names| && names[i] !in names[..i] ensures r[names[i]] == values[i] {
      if i > 0 {
        assert names[..i][0] == names[0];
        assert names[1..][i - 1] == names[i] && values[1..][i - 1] == values[i];
        assert names[1..][..i - 1] == names[..i][1..];
      }
    }
  }

  /** Lines 136-163: the row of one complete group, the 26 fields in the export's order,
      each taken from the table that holds it, names, student id and score decrypted. */
  function JoinRecords(id: nat, dp: Record, fc: Record, pc: Record, av: Record, ar: Record, anr: Record, h: Helpers)
    : (r: FlatRow)
    requires DecryptsOk(h, fc, ar)
    ensures r.Keys == set f | f in FieldNames
    ensures "id" in r && r["id"] == Num(id as real)
  {
    var first := h.decryptText(Field(fc, "instr_first_name")).value;
    var last := h.decryptText(Field(fc, "instr_last_name")).value;
    var student := h.decryptText(Field(ar, "student_id")).value;
    var score := h.decryptDecimal(Field(fc, "gai_score")).value;
    assert FieldNames[0] == "id" && FieldNames[..0] == [];
    Zip(FieldNames,
        [Num(id as real), Field(dp, "term"), Field(pc, "cohort"), Field(dp, "program"), Field(pc, "prog_term"),
         Field(dp, "course"), Text(first), Text(last), Text(student),
         Field(ar, "ga"), Field(ar, "gai"), Field(pc, "achievement_level"), Field(ar, "instr_level"),
         Field(fc, "assess_title"), Field(ar, "assess_type"), Field(av, "assess_descript"),
         Field(av, "assess_weight"), Field(av, "assess_max"),
         Field(av, "alignment"), Field(av, "clos"), Field(fc, "total_score"), Num(score), Field(ar, "quest_text"),
         Field(av, "question_max"), Field(anr, "instr_comments"), Field(dp, "created_at")])
  }

  /** Lines 128-168 for one id: the six `get(id=id)` calls and the row, or None when a
      table lacks the id (`DoesNotExist`) or a decryption raises; the loop's
      `except Exception: continue` skips both. */
  function Join(db: Tables, h: Helpers, id: nat): (r: Option<FlatRow>)
    ensures r.Some? <==> Joins(db, h, id)
    ensures r.Some? ==> "id" in r.value && r.value["id"] == Num(id as real)
  {
    if Joins(db, h, id) then
      Some(JoinRecords(id, db.dp.rows[id], db.fc.rows[id], db.pc.rows[id], db.av.rows[id],
                       db.ar.rows[id], db.anr.rows[id], h))
    else None
  }

  /** The ids of `ids` whose join succeeds, in the same order. */
  function Included(db: Tables, h: Helpers, ids: seq<nat>): (r: seq<nat>)
    ensures forall x :: x in r <==> x in ids && Joins(db, h, x)
    decreases |ids|
  {
    if ids == [] then []
    else
      var init, last := ids[..|ids| - 1], ids[|ids| - 1];
      assert forall x :: x in ids <==> x in init || x == last;
      Included(db, h, init) + (if Joins(db, h, last) then [last] else [])
  }

  /** Filtering keeps a strictly decreasing id list strictly decreasing. */
  lemma {:induction false} IncludedDecreasing(db: Tables, h: Helpers, ids: seq<nat>)
    requires Decreasing(ids)
    ensures Decreasing(Included(db, h, ids))
    decreases |ids|
  {
    if ids != [] {
      var init, last := ids[..|ids| - 1], ids[|ids| - 1];
      IncludedDecreasing(db, h, init);
      var front := Included(db, h, init);
      var r := Included(db, h, ids);
      assert r == front + (if Joins(db, h, last) then [last] else []);
      forall i, j | 0 <= i < j < |r| ensures r[i] > r[j] {
        if j < |front| {
          assert r[i] == front[i] && r[j] == front[j];
        } else {
          assert r[i] == front[i] && r[j] == last;
          assert front[i] in front;
          var p :| 0 <= p < |init| && init[p] == front[i];
          assert ids[p] == init[p];
          assert ids[p] > ids[|ids| - 1];
        }
      }
    }
  }

  /** The rows the loop appends while walking `ids`: one per id whose join succeeds. */
  function JoinAll(db: Tables, h: Helpers, ids: seq<nat>): (r: seq<FlatRow>)
    ensures |r| == |Included(db, h, ids)|
    ensures forall i :: 0 <= i < |r| ==> Join(db, h, Included(db, h, ids)[i]) == Some(r[i])
    decreases |ids|
  {
    if ids == [] then []
    else
      JoinAll(db, h, ids[..|ids| - 1])
        + match Join(db, h, ids[|ids| - 1]) case Some(row) => [row] case None => []
  }

  /** Walking one more id appends its row when its join succeeds. */
  lemma JoinAllAppend(db: Tables, h: Helpers, ids: seq<nat>, id: nat)
    ensures JoinAll(db, h, ids + [id]) == JoinAll(db, h, ids) + if Joins(db, h, id) then [Join(db, h, id).value] else []
  {
    assert (ids + [id])[..|ids|] == ids;
  }

  /** Lines 124-128: the ids of the DataProcess rows, newest first, that the loop keeps.
      They strictly decrease, and an id is among them exactly when all six tables hold it
      and its decryptions succeed. */
  function ViewIds(db: Tables, h: Helpers): (r: seq<nat>)
    requires db.Valid()
    ensures Decreasing(r)
    ensures forall x :: x in r <==> Joins(db, h, x)
  {
    IncludedDecreasing(db, h, db.dp.NewestFirst());
    Included(db, h, db.dp.NewestFirst())
  }

  /** Lines 123-170: the flattened view, one row per id of `ViewIds` and in that order,
      each row carrying its id. */
  function Flattened(db: Tables, h: Helpers): (r: seq<FlatRow>)
    requires db.Valid()
    ensures |r| == |ViewIds(db, h)|
    ensures forall i :: 0 <= i < |r| ==> "id" in r[i] && r[i]["id"] == Num(ViewIds(db, h)[i] as real)
  {
    JoinAll(db, h, db.dp.NewestFirst())
  }

  /** The flattened view holds one row per id of `ViewIds`, in that order, each row the
      join of its id and carrying that id. */
  lemma FlattenedRows(db: Tables, h: Helpers)
    requires db.Valid()
    ensures var rows, ids := Flattened(db, h), ViewIds(db, h);
      && |rows| == |ids|
      && forall i :: 0 <= i < |rows| ==> Join(db, h, ids[i]) == Some(rows[i]) && rows[i]["id"] == Num(ids[i] as real)
  {
  }

  /** An incomplete group never appears in the view. */
  lemma IncompleteGroupSkipped(db: Tables, h: Helpers, id: nat)
    requires db.Valid()
    requires !db.HasGroup(id)
    ensures id !in ViewIds(db, h)
    ensures forall row :: row in Flattened(db, h) ==> row["id"] != Num(id as real)
  {
    AbsentId(Flattened(db, h), ViewIds(db, h), id);
  }

  /** Rows that carry the ids of a list carry no id outside it. */
  lemma AbsentId(rows: seq<FlatRow>, ids: seq<nat>, id: nat)
    requires |rows| == |ids| && id !in ids
    requires forall i :: 0 <= i < |rows| ==> "id" in rows[i] && rows[i]["id"] == Num(ids[i] as real)
    ensures forall row :: row in rows ==> row["id"] != Num(id as real)
  {
    forall row | row in rows ensures row["id"] != Num(id as real) {
      var i :| 0 <= i < |rows| && rows[i] == row;
      assert ids[i] != id;
    }
  }

}
