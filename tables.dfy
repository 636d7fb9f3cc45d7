/** One auto-increment table (rows by id plus the id sequence) and the six
    correlation tables side by side. */
module Tables {
  import opened Records

  /** What a DAO `insert` returns: the saved instance, or the field-keyed errors. */
  datatype Saved = Saved(id: nat, fields: Record) | Invalid(errors: FieldErrors)

  /** Strictly decreasing: newest id first, no id twice. */
  predicate Decreasing(s: seq<nat>)
  {
    forall i, j :: 0 <= i < j < |s| ==> s[i] > s[j]
  }

  /** Ids in `keys` below `n`, largest first. */
  function Below(keys: set<nat>, n: nat): (r: seq<nat>)
    ensures forall i :: 0 <= i < |r| ==> r[i] in keys && r[i] < n
    ensures forall x :: x in keys && x < n ==> x in r
    ensures Decreasing(r)
    decreases n
  {
    if n == 0 then []
    else if n - 1 in keys then [n - 1] + Below(keys, n - 1)
    else Below(keys, n - 1)
  }

  /** A table: its rows by primary key, and `nextId`, the value its id sequence hands out next. */
  datatype Table = Table(rows: map<nat, Record>, nextId: nat) {

    /** Ids start at 1 and every id in use was handed out by the sequence. */
    ghost predicate Valid()
    {
      1 <= nextId && forall id :: id in rows ==> 1 <= id < nextId
    }

    /** `insert(**data)`: `full_clean` first (its verdict is `verdict`), then `save`,
        which takes the next id from the sequence. */
    function Insert(data: Record, verdict: Option<FieldErrors>): (r: (Table, Saved))
      requires Valid()
      ensures r.0.Valid()
      ensures r.1.Saved? <==> verdict.None?
    {
      match verdict
      case None => (Table(rows[nextId := data], nextId + 1), Saved(nextId, data))
      case Some(errors) => (this, Invalid(errors))
    }

    /** `delete(pk)`: true iff a row with that id existed; never raises for a missing id. */
    function Delete(pk: nat): (r: (Table, bool))
      requires Valid()
      ensures r.0.Valid()
      ensures r.1 <==> pk in rows
      ensures pk !in r.0.rows && r.0.rows.Keys == rows.Keys - {pk}
      ensures forall id :: id in r.0.rows ==> r.0.rows[id] == rows[id]
      ensures r.0.nextId == nextId
    {
      if pk in rows then (Table(rows - {pk}, nextId), true) else (this, false)
    }

    /** `filter_by(**kwargs)`: the rows whose every named field equals the given value. */
    function FilterBy(kwargs: map<string, Value>): (r: map<nat, Record>)
      ensures forall id :: id in r <==> id in rows && Matches(id, rows[id], kwargs)
      ensures forall id :: id in r ==> r[id] == rows[id]
    {
      map id | id in rows && Matches(id, rows[id], kwargs) :: rows[id]
    }

    /** `values_list('id', flat=True).order_by('-id')`: every id in use, newest first. */
    function NewestFirst(): (r: seq<nat>)
      requires Valid()
      ensures forall x :: x in r <==> x in rows
      ensures Decreasing(r)
    {
      Below(rows.Keys, nextId)
    }
  }

  /** What a filter compares for field `name` of the row with primary key `id`. */
  function Attr(id: nat, rec: Record, name: string): Value
  {
    if name == "id" then Num(id as real) else Field(rec, name)
  }

  /** The row satisfies every equality of the keyword arguments. */
  predicate Matches(id: nat, rec: Record, kwargs: map<string, Value>)
  {
    forall f :: f in kwargs ==> Attr(id, rec, f) == kwargs[f]
  }

  /** With no keyword arguments, `filter_by` returns what `get_all` does: every row. */
  lemma FilterByNothing(t: Table)
    ensures t.FilterBy(map[]) == t.rows
  {
  }

  /** Filtering on the primary key finds that row alone, or nothing. */
  lemma FilterById(t: Table, id: nat)
    ensures t.FilterBy(map["id" := Num(id as real)]).Keys == if id in t.rows then {id} else {}
  {
    var r := t.FilterBy(map["id" := Num(id as real)]);
    forall x | x in r ensures x == id {
      assert Attr(x, t.rows[x], "id") == Num(id as real);
    }
    if id in t.rows {
      assert Matches(id, t.rows[id], map["id" := Num(id as real)]);
    }
  }

  /** Keyword arguments on different fields combine as a conjunction: one filter on both
      is the second filter applied to the rows the first one keeps. */
  lemma FilterByConjunction(t: Table, a: map<string, Value>, b: map<string, Value>)
    requires a.Keys !! b.Keys
    ensures t.FilterBy(a + b) == Table(t.FilterBy(a), t.nextId).FilterBy(b)
  {
    forall id | id in t.rows
      ensures Matches(id, t.rows[id], a + b) <==> Matches(id, t.rows[id], a) && Matches(id, t.rows[id], b)
    {
      if Matches(id, t.rows[id], a) && Matches(id, t.rows[id], b) {
        forall f | f in a + b ensures Attr(id, t.rows[id], f) == (a + b)[f] {
          if f in b { assert (a + b)[f] == b[f]; } else { assert (a + b)[f] == a[f]; }
        }
      }
      if Matches(id, t.rows[id], a + b) {
        forall f | f in a ensures Attr(id, t.rows[id], f) == a[f] {
          assert f !in b;
          assert (a + b)[f] == a[f];
        }
        forall f | f in b ensures Attr(id, t.rows[id], f) == b[f] {
          assert (a + b)[f] == b[f];
        }
      }
    }
  }

  /** Two collections of six tables are equal when each of their tables is. */
  lemma TablesEqual(x: Tables, y: Tables)
    requires forall k :: x.Get(k) == y.Get(k)
    ensures x == y
  {
    assert x.Get(DataProcess) == y.Get(DataProcess);
    assert x.Get(FacultyCI) == y.Get(FacultyCI);
    assert x.Get(ProgramCI) == y.Get(ProgramCI);
    assert x.Get(AssessValidity) == y.Get(AssessValidity);
    assert x.Get(AccredReport) == y.Get(AccredReport);
    assert x.Get(AnnualReport) == y.Get(AnnualReport);
  }

  /** A valid insert stores the record under the id the sequence hands out, which no row
      holds yet, and advances the sequence; an invalid one returns the field-keyed errors
      and leaves the table as it was. */
  lemma InsertSemantics(t: Table, data: Record, verdict: Option<FieldErrors>)
    requires t.Valid()
    ensures var (after, saved) := t.Insert(data, verdict);
      && (verdict.None? ==>
            && t.nextId !in t.rows
            && saved == Saved(t.nextId, data)
            && after.rows.Keys == t.rows.Keys + {t.nextId}
            && after.rows[t.nextId] == data
            && (forall id :: id in t.rows ==> after.rows[id] == t.rows[id])
            && after.nextId == t.nextId + 1)
      && (verdict.Some? ==> saved == Invalid(verdict.value) && after == t)
  {
  }

  /** The row a table holds under `id`, if any. */
  function RowAt(t: Table, id: nat): Option<Record>
  {
    if id in t.rows then Some(t.rows[id]) else None
  }

  /** An empty table whose sequence restarts at 1. */
  const Fresh: Table := Table(map[], 1)

  /** The six correlation tables. */
  datatype Tables = Tables(dp: Table, fc: Table, pc: Table, av: Table, ar: Table, anr: Table) {

    function Get(k: Kind): Table
    {
      match k
      case DataProcess => dp
      case FacultyCI => fc
      case ProgramCI => pc
      case AssessValidity => av
      case AccredReport => ar
      case AnnualReport => anr
    }

    /** The same tables with table `k` replaced. */
    function Set(k: Kind, t: Table): (r: Tables)
      ensures r.Get(k) == t
      ensures forall j :: j != k ==> r.Get(j) == Get(j)
      ensures Valid() && t.Valid() ==> r.Valid()
    {
      match k
      case DataProcess => this.(dp := t)
      case FacultyCI => this.(fc := t)
      case ProgramCI => this.(pc := t)
      case AssessValidity => this.(av := t)
      case AccredReport => this.(ar := t)
      case AnnualReport => this.(anr := t)
    }

    ghost predicate Valid()
    {
      dp.Valid() && fc.Valid() && pc.Valid() && av.Valid() && ar.Valid() && anr.Valid()
    }

    /** The six id sequences stand at the same value, so the next upload lands on one id everywhere. */
    predicate Aligned()
    {
      forall k :: Get(k).nextId == dp.nextId
    }

    /** Every one of the six tables has a row with this id. */
    predicate HasGroup(id: nat)
    {
      id in dp.rows && id in fc.rows && id in pc.rows && id in av.rows && id in ar.rows && id in anr.rows
    }

    /** A complete group is one whose id every table holds. */
    lemma HasGroupEverywhere(id: nat)
      ensures HasGroup(id) <==> forall k :: id in Get(k).rows
    {
      if !HasGroup(id) {
        var k :| k in {DataProcess, FacultyCI, ProgramCI, AssessValidity, AccredReport, AnnualReport} && id !in Get(k).rows;
      }
    }
  }

  /** The six tables after the purge script: all empty, every sequence restarted at 1. */
  const Purged: Tables := Tables(Fresh, Fresh, Fresh, Fresh, Fresh, Fresh)
}
