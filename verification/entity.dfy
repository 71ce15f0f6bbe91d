/** The static helpers of the entity base class: cursor accessors, id lookups and the
    `KEY=value` line format used by the classes that serialise themselves by hand. */
module EntityBase {
  import opened Wrappers
  import opened JavaInts
  import opened Provider
  import Decimal
  import Seqs

  /** The local id of an entity that is not (yet) in the database. */
  const ENTITY_DEFAULT_ID := -1

  /** `isGlobalIdValid`: the model takes a valid global id to be a present, non-empty string. */
  predicate IsGlobalIdValid(g: Option<string>) {
    g.Some? && |g.value| > 0
  }

  predicate IsTextCell(row: Row, col: Column) {
    Cell(row, col).Some? && Cell(row, col).value.Text?
  }

  predicate IsIntegerCell(row: Row, col: Column) {
    Cell(row, col).Some? && Cell(row, col).value.Integer?
  }

  /** `Cursor.getString` through `getColumnIndexOrThrow`. */
  function GetString(row: Row, col: Column): (r: Result<Option<string>>)
    ensures r.Err? <==> Cell(row, col).None?
    ensures r.Err? ==> r.error == IllegalArgumentException
    ensures r == Ok(None) <==> Cell(row, col) == Some(Null)
    ensures IsTextCell(row, col) ==> r == Ok(Some(Cell(row, col).value.text))
  {
    match Cell(row, col)
    case None => Err(IllegalArgumentException)
    case Some(Null) => Ok(None)
    case Some(Text(t)) => Ok(Some(t))
    case Some(Integer(n)) => Ok(Some(Decimal.IntToDecimal(n)))
  }

  /** `Cursor.getLong` through `getColumnIndexOrThrow`; SQL NULL reads as 0. */
  function GetLong(row: Row, col: Column): (r: Result<int>)
    ensures r.Err? <==> Cell(row, col).None?
    ensures r.Err? ==> r.error == IllegalArgumentException
    ensures r.Ok? ==> IsLong(r.value)
    ensures IsIntegerCell(row, col) && IsLong(Cell(row, col).value.number) ==> r == Ok(Cell(row, col).value.number)
  {
    match Cell(row, col)
    case None => Err(IllegalArgumentException)
    case Some(Integer(n)) => Ok(ToLong(n))
    case Some(_) => Ok(0)
  }

  /** `Cursor.getInt`, which narrows the stored 64-bit value to 32 bits. */
  function GetInt(row: Row, col: Column): (r: Result<int>)
    ensures r.Err? <==> Cell(row, col).None?
    ensures r.Err? ==> r.error == IllegalArgumentException
    ensures r.Ok? ==> IsInt(r.value)
    ensures IsIntegerCell(row, col) && IsInt(Cell(row, col).value.number) ==> r == Ok(Cell(row, col).value.number)
  {
    var v :- GetLong(row, col);
    Ok(ToInt(v))
  }

  /** `getBoolean`: true exactly when the column holds the integer 1. */
  function GetBoolean(row: Row, col: Column): (r: Result<bool>)
    ensures r.Err? <==> Cell(row, col).None?
    ensures r.Ok? ==> (r.value <==> GetInt(row, col) == Ok(1))
    ensures Cell(row, col) == Some(Integer(1)) ==> r == Ok(true)
    ensures Cell(row, col) == Some(Null) ==> r == Ok(false)
  {
    var n :- GetInt(row, col);
    Ok(n == 1)
  }

  predicate HasGlobalId(row: Row, g: Option<string>) {
    g.Some? && Cell(row, GlobalId) == Some(Text(g.value))
  }

  predicate IsFirstWithGlobalId(rows: seq<Row>, i: int, g: Option<string>) {
    0 <= i < |rows| && HasGlobalId(rows[i], g) && forall j :: 0 <= j < i ==> !HasGlobalId(rows[j], g)
  }

  predicate IsFirstWithId(rows: seq<Row>, i: int, id: int) {
    0 <= i < |rows| && rows[i].id == id && forall j :: 0 <= j < i ==> rows[j].id != id
  }

  /** `getLocalId`: the `_ID` of the first row whose global id matches, or the default id when none
      does. A null global id makes the query throw, which is caught and also gives the default id. */
  function GetLocalId(st: Store, k: Kind, g: Option<string>): (r: int)
    ensures IsInt(r)
    ensures (forall i :: 0 <= i < |Rows(st, k)| ==> !HasGlobalId(Rows(st, k)[i], g)) ==> r == ENTITY_DEFAULT_ID
    ensures forall i :: IsFirstWithGlobalId(Rows(st, k), i, g) ==> r == ToInt(Rows(st, k)[i].id)
  {
    if g.None? then ENTITY_DEFAULT_ID
    else
      var rows := Rows(st, k);
      match Seqs.FirstIndex((row: Row) => HasGlobalId(row, g), rows)
      case None =>
        assert forall j :: 0 <= j < |rows| ==> !HasGlobalId(rows[j], g);
        ENTITY_DEFAULT_ID
      case Some(i) =>
        assert IsFirstWithGlobalId(rows, i, g);
        assert forall i' :: IsFirstWithGlobalId(rows, i', g) ==> i' == i;
        ToIntOfToLong(rows[i].id);
        match GetInt(rows[i], Id)
        case Ok(n) => n
        case Err(_) => ENTITY_DEFAULT_ID
  }

  /** `getGlobalId`: the global id stored in the row with the given local id, or null when there is
      no such row or the column cannot be read. */
  function GetGlobalId(st: Store, k: Kind, localId: int): (r: Option<string>)
    ensures (forall i :: 0 <= i < |Rows(st, k)| ==> Rows(st, k)[i].id != localId) ==> r.None?
    ensures forall i :: IsFirstWithId(Rows(st, k), i, localId) && IsTextCell(Rows(st, k)[i], GlobalId)
              ==> r == Some(Cell(Rows(st, k)[i], GlobalId).value.text)
    ensures forall i :: IsFirstWithId(Rows(st, k), i, localId) && Cell(Rows(st, k)[i], GlobalId) in {None, Some(Null)}
              ==> r.None?
  {
    var rows := Rows(st, k);
    match Seqs.FirstIndex((row: Row) => row.id == localId, rows)
    case None =>
      assert forall j :: 0 <= j < |rows| ==> rows[j].id != localId;
      None
    case Some(i) =>
      assert IsFirstWithId(rows, i, localId);
      assert forall i' :: IsFirstWithId(rows, i', localId) ==> i' == i;
      match GetString(rows[i], GlobalId)
      case Ok(s) => s
      case Err(_) => None
  }

  /** Looking up a global id's local id and then that id's global id gives the global id back. */
  lemma GlobalIdOfLocalId(st: Store, k: Kind, g: string, i: int)
    requires UniqueIds(Rows(st, k))
    requires 0 <= i < |Rows(st, k)| && HasGlobalId(Rows(st, k)[i], Some(g))
    requires forall j :: 0 <= j < |Rows(st, k)| ==> IsInt(Rows(st, k)[j].id)
    ensures GetGlobalId(st, k, GetLocalId(st, k, Some(g))) == Some(g)
  {
    var rows := Rows(st, k);
    var f := Seqs.FirstIndex((row: Row) => HasGlobalId(row, Some(g)), rows);
    var first := f.value;
    assert IsFirstWithGlobalId(rows, first, Some(g));
    assert IsFirstWithId(rows, first, rows[first].id);
  }

  /** Looking up a local id's global id and then that global id's local id gives the local id back,
      provided no two rows share a global id. */
  lemma LocalIdOfGlobalId(st: Store, k: Kind, i: int, t: string)
    requires UniqueIds(Rows(st, k))
    requires 0 <= i < |Rows(st, k)| && IsInt(Rows(st, k)[i].id)
    requires Cell(Rows(st, k)[i], GlobalId) == Some(Text(t))
    requires forall j :: 0 <= j < |Rows(st, k)| && HasGlobalId(Rows(st, k)[j], Some(t)) ==> j == i
    ensures GetLocalId(st, k, GetGlobalId(st, k, Rows(st, k)[i].id)) == Rows(st, k)[i].id
  {
    var rows := Rows(st, k);
    assert IsFirstWithId(rows, i, rows[i].id);
    assert IsFirstWithGlobalId(rows, i, Some(t));
  }

  /** How `%s` renders a string argument: a null reference prints as `null`. */
  function ValueText(v: Option<string>): string {
    if v.None? then "null" else v.value
  }

  /** One `SERIALIZE_FORMAT` line: key, `=`, value, newline. */
  function FormatLine(key: string, value: Option<string>): (line: string)
    ensures |line| == |key| + |ValueText(value)| + 2
    ensures line[..|key|] == key && line[|key|] == '=' && line[|line| - 1] == '\n'
  {
    key + "=" + ValueText(value) + "\n"
  }

  /** The text the hand-written serialisers build: one `SERIALIZE_FORMAT` line per field, in order. */
  function RenderLines(fields: seq<(string, Option<string>)>): string {
    if |fields| == 0 then "" else FormatLine(fields[0].0, fields[0].1) + RenderLines(fields[1..])
  }

  /** Splits `key=value` lines apart again; a key ends at the first `=` of its line. */
  function ParseLines(text: string): (r: Option<seq<(string, string)>>)
    decreases |text|
  {
    if |text| == 0 then Some([])
    else match Seqs.FirstIndex((c: char) => c == '\n', text)
      case None => None
      case Some(n) =>
        var line := text[..n];
        match Seqs.FirstIndex((c: char) => c == '=', line)
        case None => None
        case Some(e) =>
          var rest :- ParseLines(text[n + 1..]);
          Some([(line[..e], line[e + 1..])] + rest)
  }

  /** What a reader of the lines sees for each field: its key and the printed value. */
  function PrintedFields(fields: seq<(string, Option<string>)>): (r: seq<(string, string)>)
    ensures |r| == |fields|
    ensures forall i :: 0 <= i < |fields| ==> r[i] == (fields[i].0, ValueText(fields[i].1))
  {
    if |fields| == 0 then [] else [(fields[0].0, ValueText(fields[0].1))] + PrintedFields(fields[1..])
  }

  predicate LineSafe(fields: seq<(string, Option<string>)>) {
    forall i :: 0 <= i < |fields| ==>
      '=' !in fields[i].0 && '\n' !in fields[i].0 && '\n' !in ValueText(fields[i].1)
  }

  /** Parsing the rendered lines recovers every key and printed value, provided no key contains
      `=` or a newline and no value contains a newline. */
  lemma {:induction false} ParseRenderLines(fields: seq<(string, Option<string>)>)
    requires LineSafe(fields)
    ensures ParseLines(RenderLines(fields)) == Some(PrintedFields(fields))
  {
    if |fields| > 0 {
      var key, value := fields[0].0, ValueText(fields[0].1);
      var tail := RenderLines(fields[1..]);
      assert FormatLine(fields[0].0, fields[0].1) == key + "=" + value + "\n";
      assert RenderLines(fields) == key + "=" + value + "\n" + tail;
      assert LineSafe(fields[1..]) by {
        forall i | 0 <= i < |fields[1..]| ensures '=' !in fields[1..][i].0 {
          assert fields[1..][i] == fields[i + 1];
        }
      }
      ParseRenderLines(fields[1..]);
      ParseLineStep(key, value, tail);
      assert PrintedFields(fields) == [(key, value)] + PrintedFields(fields[1..]);
    }
  }

  /** One rendered line, parsed: the first newline ends it and the first `=` splits it. */
  lemma ParseLineStep(key: string, value: string, tail: string)
    requires '=' !in key && '\n' !in key && '\n' !in value
    ensures ParseLines(key + "=" + value + "\n" + tail) ==
              if ParseLines(tail).Some? then Some([(key, value)] + ParseLines(tail).value) else None
  {
    var text := key + "=" + value + "\n" + tail;
    var n := |key| + |value| + 1;
    assert text[n] == '\n';
    forall j | 0 <= j < n ensures text[j] != '\n' {
      if j < |key| {
        assert text[j] == key[j];
      } else if j > |key| {
        assert text[j] == value[j - |key| - 1];
      }
    }
    Seqs.FirstIndexIs((c: char) => c == '\n', text, n);
    var line := text[..n];
    assert line == key + "=" + value;
    forall j | 0 <= j < |key| ensures line[j] != '=' {
      assert line[j] == key[j];
    }
    Seqs.FirstIndexIs((c: char) => c == '=', line, |key|);
    assert line[..|key|] == key && line[|key| + 1..] == value;
    assert text[n + 1..] == tail;
  }

  /** The line format cannot tell a null field from the string "null". */
  lemma NullPrintsAsNullString(key: string)
    ensures RenderLines([(key, None)]) == RenderLines([(key, Some("null"))])
  {
  }
}
