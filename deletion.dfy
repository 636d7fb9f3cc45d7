/** `delete_entry`: the group with one id deleted table by table, stopping at the first
    table that has no row with that id. */
module Deletion {
  import opened Records
  import opened Tables

  /** No table appears twice. */
  predicate Distinct(kinds: seq<Kind>)
  {
    forall i, j :: 0 <= i < j < |kinds| ==> kinds[i] != kinds[j]
  }

  /** The DAO deletes of `id` over `kinds`, in order: the first one that finds no row
      returns False and the later tables are not visited; True when every one found it. */
  function DeleteGroup(db: Tables, kinds: seq<Kind>, id: nat): (r: (Tables, bool))
    requires db.Valid()
    ensures r.0.Valid()
    decreases |kinds|
  {
    if kinds == [] then (db, true)
    else
      var (t, found) := db.Get(kinds[0]).Delete(id);
      if !found then (db, false)
      else DeleteGroup(db.Set(kinds[0], t), kinds[1..], id)
  }

  /** The position in `kinds` of the first table without a row `id`, or `|kinds|`. */
  function FirstMissing(db: Tables, kinds: seq<Kind>, id: nat): (n: nat)
    ensures n <= |kinds|
    ensures forall j :: 0 <= j < n ==> id in db.Get(kinds[j]).rows
    ensures n < |kinds| ==> id !in db.Get(kinds[n]).rows
    decreases |kinds|
  {
    if kinds == [] then 0
    else if id !in db.Get(kinds[0]).rows then 0
    else 1 + FirstMissing(db, kinds[1..], id)
  }

  /** The tables before the first one lacking `id` lose it, every other table is left as
      it was, and the result is True exactly when no table lacks it. */
  lemma {:induction false} DeleteGroupStopsAtFirstMissing(db: Tables, kinds: seq<Kind>, id: nat)
    requires db.Valid() && Distinct(kinds)
    ensures DeleteGroup(db, kinds, id).1 <==> FirstMissing(db, kinds, id) == |kinds|
    ensures forall k :: k in kinds[..FirstMissing(db, kinds, id)] ==>
              DeleteGroup(db, kinds, id).0.Get(k) == db.Get(k).Delete(id).0
    ensures forall k :: k !in kinds[..FirstMissing(db, kinds, id)] ==>
              DeleteGroup(db, kinds, id).0.Get(k) == db.Get(k)
    decreases |kinds|
  {
    if kinds != [] && id in db.Get(kinds[0]).rows {
      var k0, rest := kinds[0], kinds[1..];
      var db' := db.Set(k0, db.Get(k0).Delete(id).0);
      assert Distinct(rest);
      DeleteGroupStopsAtFirstMissing(db', rest, id);
      assert k0 !in rest;
      FirstMissingFrame(db, db', rest, id);
      var n' := FirstMissing(db, rest, id);
      assert kinds[..n' + 1] == [k0] + rest[..n'];
      var after := DeleteGroup(db', rest, id).0;
      assert DeleteGroup(db, kinds, id).0 == after;
      forall k | k in kinds[..n' + 1] ensures after.Get(k) == db.Get(k).Delete(id).0 {
        if k != k0 {
          assert k in rest[..n'];
        }
      }
      forall k | k !in kinds[..n' + 1] ensures after.Get(k) == db.Get(k) {
        assert k != k0 && k !in rest[..n'];
      }
    }
  }

  /** One step of `DeleteGroup`: the first table's delete, then the rest, or False. */
  lemma DeleteGroupCons(db: Tables, k: Kind, rest: seq<Kind>, id: nat)
    requires db.Valid()
    ensures DeleteGroup(db, [k] + rest, id)
            == if id in db.Get(k).rows then DeleteGroup(db.Set(k, db.Get(k).Delete(id).0), rest, id) else (db, false)
  {
    assert ([k] + rest)[0] == k && ([k] + rest)[1..] == rest;
  }

  /** `FirstMissing` only looks at the tables named in `kinds`. */
  lemma {:induction false} FirstMissingFrame(db: Tables, db': Tables, kinds: seq<Kind>, id: nat)
    requires forall k :: k in kinds ==> db'.Get(k) == db.Get(k)
    ensures FirstMissing(db', kinds, id) == FirstMissing(db, kinds, id)
    decreases |kinds|
  {
    if kinds != [] {
      assert kinds[0] in kinds;
      FirstMissingFrame(db, db', kinds[1..], id);
    }
  }

  /** The fixed order names each of the six tables once. */
  lemma GroupOrderComplete()
    ensures Distinct(GroupOrder)
    ensures forall k :: k in GroupOrder
  {
    forall k ensures k in GroupOrder {
      match k
      case DataProcess => assert GroupOrder[0] == k;
      case FacultyCI => assert GroupOrder[1] == k;
      case ProgramCI => assert GroupOrder[2] == k;
      case AssessValidity => assert GroupOrder[3] == k;
      case AccredReport => assert GroupOrder[4] == k;
      case AnnualReport => assert GroupOrder[5] == k;
    }
  }

  /** Over a list naming every table once: True exactly when every table holds `id`, and
      then none holds it any more; every table either lost `id` or was left as it was. */
  lemma DeleteAllSpec(db: Tables, kinds: seq<Kind>, id: nat)
    requires db.Valid() && Distinct(kinds) && forall k :: k in kinds
    ensures var (after, ok) := DeleteGroup(db, kinds, id);
      && (ok <==> forall k :: id in db.Get(k).rows)
      && (ok ==> forall k :: after.Get(k) == db.Get(k).Delete(id).0)
      && (forall k :: after.Get(k) == db.Get(k) || after.Get(k) == db.Get(k).Delete(id).0)
  {
    DeleteGroupStopsAtFirstMissing(db, kinds, id);
    var n := FirstMissing(db, kinds, id);
    if n == |kinds| {
      assert kinds[..n] == kinds;
      forall k ensures id in db.Get(k).rows {
        assert k in kinds;
        var j :| 0 <= j < |kinds| && kinds[j] == k;
      }
    } else {
      assert id !in db.Get(kinds[n]).rows;
    }
  }

  /** `delete_entry(id)` returns True exactly when all six tables hold `id`, and then none
      holds it any more; every other row of every table is left as it was. */
  lemma DeleteEntrySpec(db: Tables, id: nat)
    requires db.Valid()
    ensures var (after, ok) := DeleteGroup(db, GroupOrder, id);
      && (ok <==> db.HasGroup(id))
      && (ok ==> forall k :: id !in after.Get(k).rows)
      && (forall k, x :: x != id && x in db.Get(k).rows ==> x in after.Get(k).rows && after.Get(k).rows[x] == db.Get(k).rows[x])
      && (forall k :: after.Get(k).rows.Keys <= db.Get(k).rows.Keys)
  {
    GroupOrderComplete();
    DeleteAllSpec(db, GroupOrder, id);
    db.HasGroupEverywhere(id);
  }
}
