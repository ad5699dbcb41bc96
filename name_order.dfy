/**
 * `SELECT id, name, description FROM themes ORDER BY name` (and the same on
 * `subthemes`): the rows of an entity table, strictly ordered by name. Names
 * are unique, so the listing of a table is unique too.
 */
module NameOrder {
  import opened Sets
  import opened Text
  import opened Schema

  /** One selected row. */
  datatype Row = Row(id: Id, entity: Entity)

  /** Strictly increasing names. */
  predicate SortedByName(rows: seq<Row>) {
    forall i, j :: 0 <= i < j < |rows| ==> LexLess(rows[i].entity.name, rows[j].entity.name)
  }

  /** The rows are exactly the entries of the table. */
  ghost predicate ListsExactly(rows: seq<Row>, m: map<Id, Entity>) {
    forall r :: r in rows <==> r.id in m && m[r.id] == r.entity
  }

  /** Insert a row before the first row whose name is larger. */
  function InsertByName(rows: seq<Row>, r: Row): (out: seq<Row>)
    ensures |out| == |rows| + 1
    ensures forall x :: x in out <==> x in rows || x == r
  {
    if rows == [] then [r]
    else if LexLess(r.entity.name, rows[0].entity.name) then [r] + rows
    else [rows[0]] + InsertByName(rows[1..], r)
  }

  /** Inserting a row with a new name keeps the rows sorted. */
  lemma {:induction false} InsertByNameSorted(rows: seq<Row>, r: Row)
    requires SortedByName(rows)
    requires forall x :: x in rows ==> x.entity.name != r.entity.name
    ensures SortedByName(InsertByName(rows, r))
  {
    if rows != [] && !LexLess(r.entity.name, rows[0].entity.name) {
      LexLessTotal(r.entity.name, rows[0].entity.name);
      assert rows[0] in rows;
      assert forall x :: x in rows[1..] ==> x in rows;
      InsertByNameSorted(rows[1..], r);
      var out := InsertByName(rows, r);
      forall i, j | 0 <= i < j < |out| ensures LexLess(out[i].entity.name, out[j].entity.name) {
        if i == 0 {
          assert out[j] in rows[1..] || out[j] == r;
          if out[j] != r {
            var k :| 1 <= k < |rows| && rows[k] == out[j];
          }
        }
      }
    } else if rows != [] {
      var out := InsertByName(rows, r);
      forall i, j | 0 <= i < j < |out| ensures LexLess(out[i].entity.name, out[j].entity.name) {
        if i == 0 && j > 1 {
          LexLessTransitive(r.entity.name, rows[0].entity.name, rows[j - 1].entity.name);
        }
      }
    }
  }

  /** Some key of a non-empty table. */
  ghost function SomeKey(m: map<Id, Entity>): (k: Id)
    requires |m| != 0
    ensures k in m
  {
    HasKey(m);
    var k :| k in m;
    k
  }

  /** The table's rows in name order: the rows inserted one by one by name. */
  ghost function Listing(m: map<Id, Entity>): seq<Row>
    decreases |m|
  {
    if |m| == 0 then []
    else
      var k := SomeKey(m);
      InsertByName(Listing(m - {k}), Row(k, m[k]))
  }

  /** With unique names, the listing is sorted by name and lists exactly the table's rows. */
  lemma {:induction false} ListingSorted(m: map<Id, Entity>)
    requires NamesUnique(m)
    ensures SortedByName(Listing(m)) && ListsExactly(Listing(m), m) && |Listing(m)| == |m|
    decreases |m|
  {
    if |m| != 0 {
      var k := SomeKey(m);
      var rest := m - {k};
      assert NamesUnique(rest);
      ListingSorted(rest);
      var before := Listing(rest);
      forall x | x in before ensures x.entity.name != m[k].name {
        assert x.id in rest && rest[x.id] == x.entity;
      }
      InsertByNameSorted(before, Row(k, m[k]));
      assert Listing(m) == InsertByName(before, Row(k, m[k]));
      forall r ensures r in Listing(m) <==> r.id in m && m[r.id] == r.entity {
        if r.id in m && m[r.id] == r.entity && r.id != k {
          assert r.id in rest && rest[r.id] == r.entity;
        }
      }
      ListingLength(Listing(m), m);
    }
  }

  /** Two sorted listings of the same table are the same sequence. */
  lemma {:induction false} ListingUnique(a: seq<Row>, b: seq<Row>, m: map<Id, Entity>)
    requires SortedByName(a) && ListsExactly(a, m)
    requires SortedByName(b) && ListsExactly(b, m)
    ensures a == b
    decreases |a|
  {
    ListingLength(a, m);
    ListingLength(b, m);
    if a != [] {
      assert a[0] in b && b[0] in a;
      if a[0] != b[0] {
        var i :| 0 <= i < |a| && a[i] == b[0];
        var j :| 0 <= j < |b| && b[j] == a[0];
        LexLessAsymmetric(a[0].entity.name, a[i].entity.name);
      }
      var m' := m - {a[0].id};
      forall r ensures r in a[1..] <==> r.id in m' && m'[r.id] == r.entity {
        if r in a[1..] {
          var k :| 1 <= k < |a| && a[k] == r;
          LexLessIrreflexive(a[0].entity.name);
        }
        if r.id in m' && m'[r.id] == r.entity {
          assert r in a;
        }
      }
      forall r ensures r in b[1..] <==> r.id in m' && m'[r.id] == r.entity {
        if r in b[1..] {
          var k :| 1 <= k < |b| && b[k] == r;
          LexLessIrreflexive(b[0].entity.name);
        }
        if r.id in m' && m'[r.id] == r.entity {
          assert r in b;
        }
      }
      ListingUnique(a[1..], b[1..], m');
      assert a == [a[0]] + a[1..] && b == [b[0]] + b[1..];
    }
  }

  /** Some row of a non-empty table appears in its listing. */
  lemma SomeListedRow(rows: seq<Row>, m: map<Id, Entity>) returns (r: Row)
    requires ListsExactly(rows, m) && |m| != 0
    ensures r in rows
  {
    var k := PickKey(m);
    r := Row(k, m[k]);
  }

  lemma HasKey(m: map<Id, Entity>)
    requires |m| != 0
    ensures exists k :: k in m
  {
    if forall k :: k !in m { assert false; }
  }

  /** A sorted listing has one row per table entry. */
  lemma {:induction false} ListingLength(rows: seq<Row>, m: map<Id, Entity>)
    requires SortedByName(rows) && ListsExactly(rows, m)
    ensures |rows| == |m|
    decreases |rows|
  {
    if rows == [] {
      if |m| != 0 {
        var r := SomeListedRow(rows, m);
        assert false;
      }
    } else {
      var m' := m - {rows[0].id};
      forall r ensures r in rows[1..] <==> r.id in m' && m'[r.id] == r.entity {
        if r in rows[1..] {
          var k :| 1 <= k < |rows| && rows[k] == r;
          LexLessIrreflexive(rows[0].entity.name);
        }
        if r.id in m' && m'[r.id] == r.entity {
          assert r in rows;
        }
      }
      ListingLength(rows[1..], m');
      assert rows[0] in rows;
    }
  }
}
