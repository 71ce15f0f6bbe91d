/** The content providers behind `ContentResolver`, as a finite functional store.

Each table is a sequence of rows in cursor order. A row carries its `_ID`
and a map from column to cell. A new row gets the next id after the largest
one in its table, as an SQLite rowid does.
 */
module Provider {
  import opened Wrappers
  import Seqs

  /** The provider tables, one per entity class. */
  datatype Kind = People | Communities | Memberships | CommunityActivities | PeopleActivities | Relationships

  /** The columns of the social-data contract that the entity classes read and write. */
  datatype Column =
    | Id | GlobalId | Name | Description | Email | CreationDate | LastModifiedDate
    | OwnerId | Type | GlobalIdMember | GlobalIdCommunity
    | GlobalIdFeedOwner | GlobalIdActor | GlobalIdObject | GlobalIdVerb | GlobalIdTarget
    | IdFeedOwner | Actor | Object | Verb | Target
    | IdP1 | IdP2 | Dirty | Deleted

  /** An SQLite cell. */
  datatype Value = Null | Text(text: string) | Integer(number: int)

  /** The `ContentValues` passed to insert and update. */
  type Values = map<Column, Value>

  datatype Row = Row(id: int, cells: Values)

  datatype Store = Store(tables: map<Kind, seq<Row>>)

  /** A string field as a cell: a null reference becomes SQL NULL. */
  function TextCell(s: Option<string>): (v: Value)
    ensures v == Null <==> s.None?
  {
    match s
    case None => Null
    case Some(t) => Text(t)
  }

  function Rows(st: Store, k: Kind): seq<Row> {
    if k in st.tables then st.tables[k] else []
  }

  /** The cell a cursor sees under `col`; `_ID` is always present. None when the table has no such column. */
  function Cell(row: Row, col: Column): (v: Option<Value>)
    ensures col == Id ==> v == Some(Integer(row.id))
  {
    if col == Id then Some(Integer(row.id))
    else if col in row.cells then Some(row.cells[col])
    else None
  }

  /** The selections the entity classes issue. */
  datatype Selection = AllRows | DirtyRows | WithGlobalId(globalId: string) | WithId(id: int)

  predicate Selects(sel: Selection, row: Row) {
    match sel
    case AllRows => true
    case DirtyRows => Cell(row, Dirty) == Some(Integer(1))
    case WithGlobalId(g) => Cell(row, GlobalId) == Some(Text(g))
    case WithId(n) => row.id == n
  }

  /** `ContentResolver.query`: the selected rows of one table, in cursor order. */
  function Query(st: Store, k: Kind, sel: Selection): (r: seq<Row>)
    ensures forall i :: 0 <= i < |r| ==> r[i] in Rows(st, k) && Selects(sel, r[i])
    ensures forall i :: 0 <= i < |Rows(st, k)| && Selects(sel, Rows(st, k)[i]) ==> Rows(st, k)[i] in r
    ensures Seqs.IsSubsequence(r, Rows(st, k))
  {
    Seqs.Filter((row: Row) => Selects(sel, row), Rows(st, k))
  }

  function MaxId(rows: seq<Row>): (m: int)
    ensures forall i :: 0 <= i < |rows| ==> rows[i].id <= m
    ensures 0 <= m
  {
    if |rows| == 0 then 0
    else var rest := MaxId(rows[1..]); if rows[0].id > rest then rows[0].id else rest
  }

  /** `ContentResolver.insert`: appends a row under a fresh id and returns that id. */
  function InsertRow(st: Store, k: Kind, values: Values): (r: (Store, int))
    ensures r.1 > 0 && forall i :: 0 <= i < |Rows(st, k)| ==> Rows(st, k)[i].id != r.1
    ensures Rows(r.0, k) == Rows(st, k) + [Row(r.1, values - {Id})]
    ensures forall other :: other != k ==> Rows(r.0, other) == Rows(st, other)
  {
    var id := MaxId(Rows(st, k)) + 1;
    (Store(st.tables[k := Rows(st, k) + [Row(id, values - {Id})]]), id)
  }

  function Overwrite(rows: seq<Row>, id: int, values: Values): (r: seq<Row>)
    ensures |r| == |rows|
    ensures forall i :: 0 <= i < |rows| ==>
      r[i] == (if rows[i].id == id then Row(id, rows[i].cells + (values - {Id})) else rows[i])
  {
    if |rows| == 0 then []
    else
      var head := if rows[0].id == id then Row(id, rows[0].cells + (values - {Id})) else rows[0];
      [head] + Overwrite(rows[1..], id, values)
  }

  function CountId(rows: seq<Row>, id: int): (n: nat)
    ensures n <= |rows|
    ensures n == 0 <==> forall i :: 0 <= i < |rows| ==> rows[i].id != id
  {
    if |rows| == 0 then 0 else (if rows[0].id == id then 1 else 0) + CountId(rows[1..], id)
  }

  /** `ContentResolver.update` on the row URI of `id`: overwrites the given columns of that row
      and returns the number of rows changed. */
  function UpdateRows(st: Store, k: Kind, id: int, values: Values): (r: (Store, nat))
    ensures r.1 == CountId(Rows(st, k), id)
    ensures |Rows(r.0, k)| == |Rows(st, k)|
    ensures forall i :: 0 <= i < |Rows(st, k)| ==>
      Rows(r.0, k)[i].id == Rows(st, k)[i].id &&
      (Rows(st, k)[i].id == id ==> Rows(r.0, k)[i].cells == Rows(st, k)[i].cells + (values - {Id})) &&
      (Rows(st, k)[i].id != id ==> Rows(r.0, k)[i] == Rows(st, k)[i])
    ensures forall other :: other != k ==> Rows(r.0, other) == Rows(st, other)
  {
    (Store(st.tables[k := Overwrite(Rows(st, k), id, values)]), CountId(Rows(st, k), id))
  }

  /** `ContentResolver.delete` on the row URI of `id`: removes that row and returns the number removed. */
  function DeleteRows(st: Store, k: Kind, id: int): (r: (Store, nat))
    ensures r.1 == CountId(Rows(st, k), id)
    ensures forall i :: 0 <= i < |Rows(r.0, k)| ==> Rows(r.0, k)[i].id != id && Rows(r.0, k)[i] in Rows(st, k)
    ensures forall i :: 0 <= i < |Rows(st, k)| && Rows(st, k)[i].id != id ==> Rows(st, k)[i] in Rows(r.0, k)
    ensures forall other :: other != k ==> Rows(r.0, other) == Rows(st, other)
  {
    var kept := Seqs.Filter((row: Row) => row.id != id, Rows(st, k));
    (Store(st.tables[k := kept]), CountId(Rows(st, k), id))
  }

  /** No two rows of a table share an `_ID`, as in an SQLite table keyed by rowid. */
  predicate UniqueIds(rows: seq<Row>) {
    forall i, j :: 0 <= i < |rows| && 0 <= j < |rows| && rows[i].id == rows[j].id ==> i == j
  }

  predicate WellKeyed(st: Store) {
    forall k :: UniqueIds(Rows(st, k))
  }

  /** Insertion, update and deletion all keep row ids unique. */
  lemma InsertKeepsWellKeyed(st: Store, k: Kind, values: Values)
    requires WellKeyed(st)
    ensures WellKeyed(InsertRow(st, k, values).0)
  {
    var st' := InsertRow(st, k, values).0;
    forall other ensures UniqueIds(Rows(st', other)) {
      if other != k {
        assert Rows(st', other) == Rows(st, other);
      } else {
        assert UniqueIds(Rows(st, k));
      }
    }
  }

  lemma UpdateKeepsWellKeyed(st: Store, k: Kind, id: int, values: Values)
    requires WellKeyed(st)
    ensures WellKeyed(UpdateRows(st, k, id, values).0)
  {
    var st' := UpdateRows(st, k, id, values).0;
    forall other ensures UniqueIds(Rows(st', other)) {
      if other != k {
        assert Rows(st', other) == Rows(st, other);
      } else {
        assert UniqueIds(Rows(st, k));
      }
    }
  }

  lemma {:induction false} FilterKeepsUnique(p: Row -> bool, rows: seq<Row>)
    requires UniqueIds(rows)
    ensures UniqueIds(Seqs.Filter(p, rows))
  {
    if |rows| > 0 {
      assert UniqueIds(rows[1..]) by {
        forall i, j | 0 <= i < |rows[1..]| && 0 <= j < |rows[1..]| && rows[1..][i].id == rows[1..][j].id
          ensures i == j
        {
          assert rows[i + 1].id == rows[j + 1].id;
        }
      }
      FilterKeepsUnique(p, rows[1..]);
      var rest := Seqs.Filter(p, rows[1..]);
      if p(rows[0]) {
        forall i | 0 <= i < |rest| ensures rest[i].id != rows[0].id {
          var j :| 0 <= j < |rows[1..]| && rows[1..][j] == rest[i];
          assert rows[j + 1] == rest[i];
        }
        assert Seqs.Filter(p, rows) == [rows[0]] + rest;
      }
    }
  }

  lemma DeleteKeepsWellKeyed(st: Store, k: Kind, id: int)
    requires WellKeyed(st)
    ensures WellKeyed(DeleteRows(st, k, id).0)
  {
    var st' := DeleteRows(st, k, id).0;
    forall other ensures UniqueIds(Rows(st', other)) {
      if other != k {
        assert Rows(st', other) == Rows(st, other);
      } else {
        FilterKeepsUnique((row: Row) => row.id != id, Rows(st, k));
      }
    }
  }
}
