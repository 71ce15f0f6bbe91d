/** The sync server of the `service` package: the handshake and update handlers of its client
    handler threads, the processing of received records, the fan-out of updates to peers and the
    update sender threads. Each thread's work is one step from a server state to the next; a
    step that would wait in the handshake lock answers `None`. */
module SyncServer {
  import opened Wrappers
  import opened JavaInts
  import opened Provider
  import opened EntityBase
  import opened Records
  import opened EntityOps
  import opened Peers
  import opened Json
  import Utf8
  import HandshakeLock
  import Messages
  import LengthFraming
  import Poller

  // ---------------------------------------------------------------------------------------------
  // Processing received records

  /** What `processUpdate` does with a received record once its local ids are looked up. */
  datatype Action = DeleteRecord | RejectDelete | InsertRecord | UpdateRecord

  /** The branch `processUpdate` takes: a deleted record is removed if it is known here and only
      logged if not; a live record is inserted if unknown and written over its row otherwise. */
  function Classify(e: Entity): (a: Action)
    ensures a == DeleteRecord <==> e.flags.deleted != 0 && e.id != ENTITY_DEFAULT_ID
    ensures a == RejectDelete <==> e.flags.deleted != 0 && e.id == ENTITY_DEFAULT_ID
    ensures a == InsertRecord <==> e.flags.deleted == 0 && e.id == ENTITY_DEFAULT_ID
    ensures a == UpdateRecord <==> e.flags.deleted == 0 && e.id != ENTITY_DEFAULT_ID
  {
    if e.flags.deleted != 0 && e.id != ENTITY_DEFAULT_ID then DeleteRecord
    else if e.flags.deleted != 0 then RejectDelete
    else if e.id == ENTITY_DEFAULT_ID then InsertRecord
    else UpdateRecord
  }

  /** One pass of the loop in `processUpdate`: the record's local ids are resolved against this
      store and its dirty flag cleared (the record object itself is changed, and the changed record
      is what later goes out to the peers); then it is deleted, skipped, inserted or written over
      its row. Each branch meets the precondition of the entity operation it calls. */
  function ApplyOne(st: Store, e: Entity): (r: (Store, Entity))
    ensures KindOf(r.1) == KindOf(e) && r.1.globalId == e.globalId && RefGlobalIds(r.1) == RefGlobalIds(e)
    ensures r.1.id == GetLocalId(st, KindOf(e), e.globalId) && r.1.flags == Flags(0, e.flags.deleted)
    ensures forall k :: k != KindOf(e) ==> Rows(r.0, k) == Rows(st, k)
    ensures e.flags.deleted != 0 && r.1.id == ENTITY_DEFAULT_ID ==> r.0 == st
    ensures e.flags.deleted != 0 && r.1.id != ENTITY_DEFAULT_ID ==>
              forall i :: 0 <= i < |Rows(r.0, KindOf(e))| ==> Rows(r.0, KindOf(e))[i].id != r.1.id
    ensures e.flags.deleted == 0 && r.1.id == ENTITY_DEFAULT_ID ==>
              |Rows(r.0, KindOf(e))| == |Rows(st, KindOf(e))| + 1 &&
              Rows(r.0, KindOf(e))[..|Rows(st, KindOf(e))|] == Rows(st, KindOf(e)) &&
              Rows(r.0, KindOf(e))[|Rows(st, KindOf(e))|].cells == ProviderValues(r.1)
    ensures e.flags.deleted == 0 && r.1.id != ENTITY_DEFAULT_ID ==>
              |Rows(r.0, KindOf(e))| == |Rows(st, KindOf(e))| &&
              (Dirty in WrittenColumns(KindOf(e)) ==> Poller.DirtyCleared(r.0, KindOf(e), r.1.id))
  {
    var e1 := WithDirty(FetchLocalIds(st, e), 0);
    match Classify(e1)
    case DeleteRecord => (Delete(st, e1).value.0, e1)
    case RejectDelete => (st, e1)
    case InsertRecord => (Insert(st, e1).value.0, e1)
    case UpdateRecord =>
      var st' := Update(st, e1).value.0;
      assert Dirty in WrittenColumns(KindOf(e1)) ==> Poller.DirtyCleared(st', KindOf(e1), e1.id) by {
        if Dirty in WrittenColumns(KindOf(e1)) {
          Poller.UpdateClears(st, e1);
        }
      }
      (st', e1)
  }

  /** `processUpdate`: every received record in turn, each against the store the previous ones
      left. The result also holds the records as the loop changed them. */
  function ProcessUpdate(st: Store, es: seq<Entity>): (r: (Store, seq<Entity>))
    ensures |r.1| == |es|
    ensures forall i :: 0 <= i < |es| ==>
              KindOf(r.1[i]) == KindOf(es[i]) && r.1[i].globalId == es[i].globalId &&
              r.1[i].flags == Flags(0, es[i].flags.deleted)
    ensures forall k :: (forall i :: 0 <= i < |es| ==> KindOf(es[i]) != k) ==> Rows(r.0, k) == Rows(st, k)
    decreases |es|
  {
    if |es| == 0 then (st, [])
    else
      var (st', e') := ApplyOne(st, es[0]);
      var (st'', rest) := ProcessUpdate(st', es[1..]);
      ProcessedCons(st, st', st'', es, e', rest);
      (st'', [e'] + rest)
  }

  /** The step of `ProcessUpdate`: the first pass followed by the rest of the loop. */
  lemma ProcessedCons(st: Store, st': Store, st'': Store, es: seq<Entity>, e': Entity, rest: seq<Entity>)
    requires |es| > 0 && |rest| == |es| - 1
    requires KindOf(e') == KindOf(es[0]) && e'.globalId == es[0].globalId && e'.flags == Flags(0, es[0].flags.deleted)
    requires forall i :: 0 <= i < |rest| ==>
               KindOf(rest[i]) == KindOf(es[1..][i]) && rest[i].globalId == es[1..][i].globalId &&
               rest[i].flags == Flags(0, es[1..][i].flags.deleted)
    requires forall k :: k != KindOf(es[0]) ==> Rows(st', k) == Rows(st, k)
    requires forall k :: (forall i :: 0 <= i < |es[1..]| ==> KindOf(es[1..][i]) != k) ==> Rows(st'', k) == Rows(st', k)
    ensures forall i :: 0 <= i < |es| ==>
              KindOf(([e'] + rest)[i]) == KindOf(es[i]) && ([e'] + rest)[i].globalId == es[i].globalId &&
              ([e'] + rest)[i].flags == Flags(0, es[i].flags.deleted)
    ensures forall k :: (forall i :: 0 <= i < |es| ==> KindOf(es[i]) != k) ==> Rows(st'', k) == Rows(st, k)
  {
    forall i | 1 <= i < |es|
      ensures ([e'] + rest)[i] == rest[i - 1] && es[i] == es[1..][i - 1]
    {
    }
    forall k | forall i :: 0 <= i < |es| ==> KindOf(es[i]) != k
      ensures Rows(st'', k) == Rows(st, k)
    {
      assert KindOf(es[0]) != k;
      assert forall i :: 0 <= i < |es[1..]| ==> KindOf(es[1..][i]) != k by {
        forall i | 0 <= i < |es[1..]|
          ensures KindOf(es[1..][i]) != k
        {
          assert es[1..][i] == es[i + 1];
        }
      }
    }
  }

  /** A new record received twice is stored once: the first copy is inserted under a fresh row,
      and the second, whose global id now resolves to that row, is written over it. */
  lemma ReceivedTwiceStoredOnce(st: Store, e: Entity)
    requires e.flags.deleted == 0 && !e.CommunityActivity? && e.globalId.Some?
    requires forall i :: 0 <= i < |Rows(st, KindOf(e))| ==> !HasGlobalId(Rows(st, KindOf(e))[i], e.globalId)
    requires IsInt(MaxId(Rows(st, KindOf(e))) + 1)
    ensures var (st1, e1) := ApplyOne(st, e);
            var (st2, e2) := ApplyOne(st1, e);
            Classify(e1) == InsertRecord && Classify(e2) == UpdateRecord &&
            |Rows(st2, KindOf(e))| == |Rows(st, KindOf(e))| + 1
  {
    var k := KindOf(e);
    var (st1, e1) := ApplyOne(st, e);
    var rows := Rows(st, k);
    var rows1 := Rows(st1, k);
    assert e1.id == ENTITY_DEFAULT_ID;
    var id := Insert(st, e1).value.1;
    assert rows1 == rows + [Row(id, ProviderValues(e1))];
    assert id == MaxId(rows) + 1 by {
      assert WithDirty(FetchLocalIds(st, e), 0) == e1;
    }
    assert HasGlobalId(rows1[|rows|], e.globalId) by {
      assert ProviderValues(e1)[GlobalId] == TextCell(e1.globalId);
    }
    assert IsFirstWithGlobalId(rows1, |rows|, e.globalId) by {
      forall j | 0 <= j < |rows| ensures !HasGlobalId(rows1[j], e.globalId) {
        assert rows1[j] == rows[j];
      }
    }
    assert GetLocalId(st1, k, e.globalId) == id;
  }

  /** Row ids are unique and positive in every table, and leave room for `n` more inserts before
      a new id would no longer fit the `int` that `getLocalId` narrows it to. */
  predicate RoomFor(st: Store, n: nat) {
    WellKeyed(st) &&
    forall k :: (forall i :: 0 <= i < |Rows(st, k)| ==> Rows(st, k)[i].id > 0) && MaxId(Rows(st, k)) + n <= INT_MAX
  }

  /** Some row of table `k` carries the global id `g`. */
  ghost predicate InTable(st: Store, k: Kind, g: Option<string>) {
    exists i :: 0 <= i < |Rows(st, k)| && HasGlobalId(Rows(st, k)[i], g)
  }

  lemma MaxIdAtMost(rows: seq<Row>, b: int)
    requires 0 <= b && forall i :: 0 <= i < |rows| ==> rows[i].id <= b
    ensures MaxId(rows) <= b
  {
    if |rows| > 0 {
      MaxIdAtMost(rows[1..], b);
    }
  }

  lemma FirstWithGlobalId(rows: seq<Row>, g: Option<string>, i: int)
    requires 0 <= i < |rows| && HasGlobalId(rows[i], g)
    ensures exists f :: IsFirstWithGlobalId(rows, f, g)
    decreases i
  {
    if exists j :: 0 <= j < i && HasGlobalId(rows[j], g) {
      var j :| 0 <= j < i && HasGlobalId(rows[j], g);
      FirstWithGlobalId(rows, g, j);
    } else {
      assert IsFirstWithGlobalId(rows, i, g);
    }
  }

  /** With unique int ids, the row whose id `getLocalId` returns is the one carrying the global id. */
  lemma ResolvedRow(st: Store, k: Kind, g: Option<string>, j: int)
    requires RoomFor(st, 0) && GetLocalId(st, k, g) != ENTITY_DEFAULT_ID
    requires 0 <= j < |Rows(st, k)| && Rows(st, k)[j].id == GetLocalId(st, k, g)
    ensures HasGlobalId(Rows(st, k)[j], g)
  {
    var rows := Rows(st, k);
    var w :| 0 <= w < |rows| && HasGlobalId(rows[w], g);
    FirstWithGlobalId(rows, g, w);
    var f :| IsFirstWithGlobalId(rows, f, g);
    assert rows[f].id <= MaxId(rows) <= INT_MAX;
    assert UniqueIds(rows);
  }

  /** A global id present in a table with int ids resolves to a local id. */
  lemma InTableResolves(st: Store, k: Kind, g: Option<string>)
    requires RoomFor(st, 0) && InTable(st, k, g)
    ensures GetLocalId(st, k, g) != ENTITY_DEFAULT_ID
  {
    var rows := Rows(st, k);
    var w :| 0 <= w < |rows| && HasGlobalId(rows[w], g);
    FirstWithGlobalId(rows, g, w);
    var f :| IsFirstWithGlobalId(rows, f, g);
    assert 0 < rows[f].id <= MaxId(rows) <= INT_MAX;
  }

  /** The store a pass of the loop leaves, as a provider operation. */
  lemma ApplyOneStore(st: Store, e: Entity)
    ensures var e1 := WithDirty(FetchLocalIds(st, e), 0);
            var st' := ApplyOne(st, e).0;
            && (Classify(e1) == RejectDelete ==> st' == st)
            && (Classify(e1) == InsertRecord ==> st' == InsertRow(st, KindOf(e), ProviderValues(e1)).0)
            && (Classify(e1) == UpdateRecord ==> st' == UpdateRows(st, KindOf(e), e1.id, ProviderValues(e1)).0)
            && (Classify(e1) == DeleteRecord ==> st' == DeleteRows(st, KindOf(e), e1.id).0)
  {
    var e1 := WithDirty(FetchLocalIds(st, e), 0);
    assert ProviderValues(e1) - {Id} == ProviderValues(e1);
  }

  lemma InsertKeepsRoom(st: Store, k: Kind, values: Values, n: nat)
    requires RoomFor(st, n + 1)
    ensures RoomFor(InsertRow(st, k, values).0, n)
  {
    var st' := InsertRow(st, k, values).0;
    InsertKeepsWellKeyed(st, k, values);
    MaxIdAtMost(Rows(st', k), MaxId(Rows(st, k)) + 1);
    assert forall other :: other != k ==> Rows(st', other) == Rows(st, other);
  }

  lemma UpdateKeepsRoom(st: Store, k: Kind, id: int, values: Values, n: nat)
    requires RoomFor(st, n + 1)
    ensures RoomFor(UpdateRows(st, k, id, values).0, n)
  {
    var st' := UpdateRows(st, k, id, values).0;
    UpdateKeepsWellKeyed(st, k, id, values);
    MaxIdAtMost(Rows(st', k), MaxId(Rows(st, k)));
    assert forall other :: other != k ==> Rows(st', other) == Rows(st, other);
  }

  lemma DeleteKeepsRoom(st: Store, k: Kind, id: int, n: nat)
    requires RoomFor(st, n + 1)
    ensures RoomFor(DeleteRows(st, k, id).0, n)
  {
    var st' := DeleteRows(st, k, id).0;
    DeleteKeepsWellKeyed(st, k, id);
    forall i | 0 <= i < |Rows(st', k)| ensures 0 < Rows(st', k)[i].id <= MaxId(Rows(st, k)) {
      assert Rows(st', k)[i] in Rows(st, k);
    }
    MaxIdAtMost(Rows(st', k), MaxId(Rows(st, k)));
    assert forall other :: other != k ==> Rows(st', other) == Rows(st, other);
  }

  /** One pass of the loop uses up at most one fresh id and keeps ids unique. */
  lemma ApplyOneKeepsRoom(st: Store, e: Entity, n: nat)
    requires RoomFor(st, n + 1)
    ensures RoomFor(ApplyOne(st, e).0, n)
  {
    var k := KindOf(e);
    var e1 := WithDirty(FetchLocalIds(st, e), 0);
    ApplyOneStore(st, e);
    match Classify(e1)
    case RejectDelete =>
    case InsertRecord => InsertKeepsRoom(st, k, ProviderValues(e1), n);
    case UpdateRecord => UpdateKeepsRoom(st, k, e1.id, ProviderValues(e1), n);
    case DeleteRecord => DeleteKeepsRoom(st, k, e1.id, n);
  }

  /** An inserted record's global id is in its table. */
  lemma InsertStores(st: Store, e1: Entity)
    requires !e1.CommunityActivity? && e1.globalId.Some?
    ensures InTable(InsertRow(st, KindOf(e1), ProviderValues(e1)).0, KindOf(e1), e1.globalId)
  {
    var rows := Rows(st, KindOf(e1));
    var rows' := Rows(InsertRow(st, KindOf(e1), ProviderValues(e1)).0, KindOf(e1));
    assert ProviderValues(e1)[GlobalId] == TextCell(e1.globalId);
    assert HasGlobalId(rows'[|rows|], e1.globalId);
  }

  /** An updated record's global id stays in its table: the row it resolved to carries it. */
  lemma UpdateStores(st: Store, e1: Entity)
    requires e1.id == GetLocalId(st, KindOf(e1), e1.globalId) && e1.id != ENTITY_DEFAULT_ID
    ensures InTable(UpdateRows(st, KindOf(e1), e1.id, ProviderValues(e1)).0, KindOf(e1), e1.globalId)
  {
    var rows := Rows(st, KindOf(e1));
    var j :| 0 <= j < |rows| && HasGlobalId(rows[j], e1.globalId);
    var rows' := Rows(UpdateRows(st, KindOf(e1), e1.id, ProviderValues(e1)).0, KindOf(e1));
    if rows[j].id == e1.id {
      assert rows'[j] == Row(rows[j].id, rows[j].cells + (ProviderValues(e1) - {Id}));
      OverwriteKeepsGlobalId(e1, rows[j].id, rows[j].cells);
    } else {
      assert rows'[j] == rows[j];
    }
  }

  /** A live record with a global id is in its table once its pass is done: inserted when its
      global id was unknown, written over the row that carries it otherwise. */
  lemma ApplyOneStores(st: Store, e: Entity)
    requires e.flags.deleted == 0 && !e.CommunityActivity? && e.globalId.Some?
    ensures InTable(ApplyOne(st, e).0, KindOf(e), e.globalId)
  {
    var e1 := WithDirty(FetchLocalIds(st, e), 0);
    ApplyOneStore(st, e);
    if e1.id == ENTITY_DEFAULT_ID {
      InsertStores(st, e1);
    } else {
      UpdateStores(st, e1);
    }
  }

  /** A delete reaches only the row the deleted record's global id resolves to. */
  lemma DeleteKeepsInTable(st: Store, k: Kind, g: Option<string>, g': Option<string>)
    requires RoomFor(st, 0) && InTable(st, k, g) && g' != g && GetLocalId(st, k, g') != ENTITY_DEFAULT_ID
    ensures InTable(DeleteRows(st, k, GetLocalId(st, k, g')).0, k, g)
  {
    var rows := Rows(st, k);
    var j :| 0 <= j < |rows| && HasGlobalId(rows[j], g);
    if rows[j].id == GetLocalId(st, k, g') {
      ResolvedRow(st, k, g', j);
    }
    var rows' := Rows(DeleteRows(st, k, GetLocalId(st, k, g')).0, k);
    assert rows[j] in rows';
  }

  /** Writing a record's values over a row that carries the record's global id keeps it there. */
  lemma OverwriteKeepsGlobalId(e: Entity, id: int, cells: Values)
    requires HasGlobalId(Row(id, cells), e.globalId)
    ensures HasGlobalId(Row(id, cells + (ProviderValues(e) - {Id})), e.globalId)
  {
    if !e.CommunityActivity? {
      assert ProviderValues(e)[GlobalId] == TextCell(e.globalId);
    }
  }

  /** An update writes over the row its record's global id resolves to, so a row carrying another
      global id is untouched and a row carrying the same one keeps it. */
  lemma UpdateKeepsInTable(st: Store, e1: Entity, g: Option<string>)
    requires RoomFor(st, 0) && InTable(st, KindOf(e1), g) && e1.id == GetLocalId(st, KindOf(e1), e1.globalId)
    requires e1.id != ENTITY_DEFAULT_ID
    ensures InTable(UpdateRows(st, KindOf(e1), e1.id, ProviderValues(e1)).0, KindOf(e1), g)
  {
    var k := KindOf(e1);
    var rows := Rows(st, k);
    var rows' := Rows(UpdateRows(st, k, e1.id, ProviderValues(e1)).0, k);
    var j :| 0 <= j < |rows| && HasGlobalId(rows[j], g);
    if rows[j].id == e1.id {
      ResolvedRow(st, k, e1.globalId, j);
      assert rows'[j] == Row(rows[j].id, rows[j].cells + (ProviderValues(e1) - {Id}));
      OverwriteKeepsGlobalId(e1, rows[j].id, rows[j].cells);
    } else {
      assert rows'[j] == rows[j];
    }
    assert HasGlobalId(rows'[j], g);
  }

  /** A pass over any other record keeps a stored global id stored, unless that record deletes
      it: a delete or update reaches only the row its own global id resolves to, and an insert
      appends. */
  lemma ApplyOneKeepsInTable(st: Store, e: Entity, k: Kind, g: Option<string>)
    requires RoomFor(st, 0) && InTable(st, k, g)
    requires KindOf(e) == k && e.globalId == g ==> e.flags.deleted == 0
    ensures InTable(ApplyOne(st, e).0, k, g)
  {
    var e1 := WithDirty(FetchLocalIds(st, e), 0);
    ApplyOneStore(st, e);
    if KindOf(e) != k {
      assert Rows(ApplyOne(st, e).0, k) == Rows(st, k);
    } else {
      match Classify(e1)
      case RejectDelete =>
      case InsertRecord =>
        var rows := Rows(st, k);
        var j :| 0 <= j < |rows| && HasGlobalId(rows[j], g);
        assert Rows(InsertRow(st, k, ProviderValues(e1)).0, k)[j] == rows[j];
      case DeleteRecord => DeleteKeepsInTable(st, k, g, e.globalId);
      case UpdateRecord => UpdateKeepsInTable(st, e1, g);
    }
  }

  /** The rest of the loop keeps a stored global id stored when no later record deletes it. */
  lemma {:induction false} ProcessUpdateKeepsInTable(st: Store, es: seq<Entity>, k: Kind, g: Option<string>, n: nat)
    requires RoomFor(st, n + |es|) && InTable(st, k, g)
    requires forall j :: 0 <= j < |es| && KindOf(es[j]) == k && es[j].globalId == g ==> es[j].flags.deleted == 0
    ensures InTable(ProcessUpdate(st, es).0, k, g) && RoomFor(ProcessUpdate(st, es).0, n)
    decreases |es|
  {
    if |es| > 0 {
      var st', rest := ApplyOne(st, es[0]).0, es[1..];
      ApplyOneKeepsInTable(st, es[0], k, g);
      ApplyOneKeepsRoom(st, es[0], n + |es| - 1);
      forall j | 0 <= j < |rest| && KindOf(rest[j]) == k && rest[j].globalId == g
        ensures rest[j].flags.deleted == 0
      {
        assert rest[j] == es[j + 1];
      }
      ProcessUpdateKeepsInTable(st', rest, k, g, n);
      ProcessUpdateUnfold(st, es);
    }
  }

  /** The loop's first pass, then the rest of the loop on the store it left. */
  lemma ProcessUpdateUnfold(st: Store, es: seq<Entity>)
    requires |es| > 0
    ensures ProcessUpdate(st, es).0 == ProcessUpdate(ApplyOne(st, es[0]).0, es[1..]).0
  {
  }

  /** The record of the first pass is stored, and nothing after it deletes it. */
  lemma ProcessUpdateStoresHead(st: Store, es: seq<Entity>, n: nat)
    requires RoomFor(st, n + |es|) && |es| > 0
    requires es[0].flags.deleted == 0 && !es[0].CommunityActivity? && es[0].globalId.Some?
    requires forall j :: 0 < j < |es| && KindOf(es[j]) == KindOf(es[0]) && es[j].globalId == es[0].globalId ==>
               es[j].flags.deleted == 0
    ensures InTable(ProcessUpdate(st, es).0, KindOf(es[0]), es[0].globalId) && RoomFor(ProcessUpdate(st, es).0, n)
  {
    var st' := ApplyOne(st, es[0]).0;
    var k, g, rest := KindOf(es[0]), es[0].globalId, es[1..];
    ApplyOneKeepsRoom(st, es[0], n + |es| - 1);
    ApplyOneStores(st, es[0]);
    forall j | 0 <= j < |rest| && KindOf(rest[j]) == k && rest[j].globalId == g
      ensures rest[j].flags.deleted == 0
    {
      assert rest[j] == es[j + 1];
    }
    ProcessUpdateKeepsInTable(st', rest, k, g, n);
    ProcessUpdateUnfold(st, es);
  }

  lemma {:induction false} ProcessUpdateStoresAt(st: Store, es: seq<Entity>, i: int, n: nat)
    requires RoomFor(st, n + |es|) && 0 <= i < |es|
    requires es[i].flags.deleted == 0 && !es[i].CommunityActivity? && es[i].globalId.Some?
    requires forall j :: i < j < |es| && KindOf(es[j]) == KindOf(es[i]) && es[j].globalId == es[i].globalId ==>
               es[j].flags.deleted == 0
    ensures InTable(ProcessUpdate(st, es).0, KindOf(es[i]), es[i].globalId) && RoomFor(ProcessUpdate(st, es).0, n)
    decreases |es|
  {
    if i == 0 {
      ProcessUpdateStoresHead(st, es, n);
    } else {
      var st' := ApplyOne(st, es[0]).0;
      ApplyOneKeepsRoom(st, es[0], n + |es| - 1);
      assert forall j :: 0 <= j < |es[1..]| ==> es[1..][j] == es[j + 1];
      ProcessUpdateStoresAt(st', es[1..], i - 1, n);
      ProcessUpdateUnfold(st, es);
    }
  }

  /** What `processUpdate` promises its caller: a live record of a class that stores its values is
      in the database afterwards, so its global id resolves to a local id, unless a later record
      of the same batch deletes it. The tables must have unique positive ids with room for one
      insert per record. */
  lemma ReceivedLiveRecordStored(st: Store, es: seq<Entity>, i: int)
    requires RoomFor(st, |es|) && 0 <= i < |es|
    requires es[i].flags.deleted == 0 && !es[i].CommunityActivity? && es[i].globalId.Some?
    requires forall j :: i < j < |es| && KindOf(es[j]) == KindOf(es[i]) && es[j].globalId == es[i].globalId ==>
               es[j].flags.deleted == 0
    ensures GetLocalId(ProcessUpdate(st, es).0, KindOf(es[i]), es[i].globalId) != ENTITY_DEFAULT_ID
  {
    ProcessUpdateStoresAt(st, es, i, 0);
    InTableResolves(ProcessUpdate(st, es).0, KindOf(es[i]), es[i].globalId);
  }

  // ---------------------------------------------------------------------------------------------
  // Server state and handler outcomes

  /** The state the handler threads share: the handshake lock, the peer list and the store. */
  datatype Server = Server(lock: HandshakeLock.Lock, peers: seq<Peer>, store: Store)

  /** An update sender thread a handler started: the position of its peer and the response it
      will send. */
  datatype Sender = Sender(peer: nat, response: Messages.Response)

  /** A handler that got past `lock`: the server it leaves, its connection, the senders it
      started and the exception that ended it, if any. */
  datatype Handled = Handled(server: Server, conn: LengthFraming.Conn, senders: seq<Sender>, failure: Option<Exception>)

  /** The exceptions a socket operation raises that are `IOException`s. */
  predicate IsIOException(x: Exception) {
    x == IOException || x == InterruptedIOException || x == EOFException
  }

  // ---------------------------------------------------------------------------------------------
  // Handshakes

  /** The peer list after a handshake registered its sender: a new id added one peer at the end, a
      known id reused its peer, and the peer an id lookup finds is active. */
  ghost predicate Registered(before: seq<Peer>, after: seq<Peer>, id: Option<string>) {
    (Lookup(before, id) == Ok(None) ==> |after| == |before| + 1 && after[..|before|] == before) &&
    (Lookup(before, id).Ok? && Lookup(before, id).value.Some? ==>
       var i := Lookup(before, id).value.value;
       |after| == |before| && after[i] == SetActive(before[i], true) &&
       forall j :: 0 <= j < |before| && j != i ==> after[j] == before[j]) &&
    (id.Some? ==> Lookup(after, id).Ok? && Lookup(after, id).value.Some? &&
                  after[Lookup(after, id).value.value].active)
  }

  /** The registration step of `handleHandshake`: the sender's peer is looked up, created from the
      connection when missing, and marked active. */
  function Register(peers: seq<Peer>, id: Option<string>, link: Link): (r: Result<seq<Peer>>)
    ensures r.Ok? ==> Registered(peers, r.value, id)
    ensures r.Err? <==> Lookup(peers, id).Err? || (Lookup(peers, id) == Ok(None) && PeerFor(id, link).Err?)
    ensures r.Err? && Lookup(peers, id).Err? ==> r.error == NullPointerException
    ensures r.Err? && Lookup(peers, id).Ok? ==> r.error == PeerFor(id, link).error
  {
    match Lookup(peers, id)
    case Err(x) => Err(x)
    case Ok(Some(i)) =>
      var after := UpdateAt(peers, i, SetActive(peers[i], true));
      LookupReadsIds(peers, after, id);
      Ok(after)
    case Ok(None) =>
      match PeerFor(id, link)
      case Err(x) => Err(x)
      case Ok(p) =>
        var after := AddPeer(peers, SetActive(p, true));
        LookupAppend(peers, id, SetActive(p, true));
        Ok(after)
  }

  /** `handleHandshake` as written: under the HANDSHAKE lock the sender is registered and every
      record of the store (`all`, read by a query outside this model) is sent back. The lock is
      released only when all of that succeeds; any exception leaves it held. `sendFailure` is the
      exception the socket raises on the write, if it does. */
  function HandleHandshake(s: Server, t: JsonText, codec: EntityCodec, id: Option<string>, link: Link,
                           conn: LengthFraming.Conn, all: seq<Entity>, sendFailure: Option<Exception>): (r: Option<Handled>)
    requires LengthFraming.Consistent(conn)
    ensures r.None? <==> s.lock.updates > 0
    ensures r.Some? ==> r.value.server.store == s.store && r.value.senders == []
    ensures r.Some? ==> (r.value.failure.None? <==>
              Register(s.peers, id, link).Ok? && sendFailure.None? && conn.initialized)
    ensures r.Some? && Register(s.peers, id, link).Ok? ==> Registered(s.peers, r.value.server.peers, id)
    ensures r.Some? && Register(s.peers, id, link).Err? ==> r.value.server.peers == s.peers
    ensures r.Some? && r.value.failure.None? ==>
              r.value.server.lock == s.lock &&
              r.value.conn.writer == Some(conn.writer.value + LengthFraming.Frame(Messages.SerializeResponse(t, codec, Messages.Response(Messages.ListOf(all)))))
    ensures r.Some? && r.value.failure.Some? ==>
              r.value.server.lock == HandshakeLock.Lock(s.lock.handshakes + 1, 0)
  {
    match HandshakeLock.TryLock(s.lock, HandshakeLock.Handshake)
    case None => None
    case Some(held) =>
      Some(match Register(s.peers, id, link)
        case Err(x) => Handled(Server(held, s.peers, s.store), conn, [], Some(x))
        case Ok(peers) =>
          var sent := if sendFailure.Some? then Err(sendFailure.value)
                      else LengthFraming.SendResponse(t, codec, conn, Messages.Response(Messages.ListOf(all)));
          match sent
          case Err(x) => Handled(Server(held, peers, s.store), conn, [], Some(x))
          case Ok(conn') =>
            HandshakeLock.UnlockUndoesLock(s.lock, HandshakeLock.Handshake);
            Handled(Server(HandshakeLock.Unlock(held, HandshakeLock.Handshake).0, peers, s.store), conn', [], None))
  }

  /** `handleHandshake` with the release in a `finally`: the same outcome, with the lock given
      back on every path. */
  function HandleHandshakeReleasing(s: Server, t: JsonText, codec: EntityCodec, id: Option<string>, link: Link,
                                    conn: LengthFraming.Conn, all: seq<Entity>, sendFailure: Option<Exception>): (r: Option<Handled>)
    requires LengthFraming.Consistent(conn)
    ensures r.None? <==> s.lock.updates > 0
    ensures r.Some? ==> r.value.server.lock == s.lock
    ensures r.Some? ==> var w := HandleHandshake(s, t, codec, id, link, conn, all, sendFailure).value;
              r.value.server.peers == w.server.peers && r.value.server.store == w.server.store &&
              r.value.conn == w.conn && r.value.senders == [] && r.value.failure == w.failure
  {
    match HandleHandshake(s, t, codec, id, link, conn, all, sendFailure)
    case None => None
    case Some(h) =>
      if h.failure.None? then Some(h)
      else Some(h.(server := h.server.(lock := HandshakeLock.Unlock(h.server.lock, HandshakeLock.Handshake).0)))
  }

  /** The reply of a successful handshake is every record of the store, and a client reading the
      bytes the server wrote receives exactly that list. */
  lemma HandshakeReplyReadsBack(s: Server, t: JsonText, codec: EntityCodec, id: Option<string>, link: Link,
                                conn: LengthFraming.Conn, all: seq<Entity>, client: LengthFraming.Conn, rest: seq<Utf8.byte>)
    requires LawfulText(t) && LawfulCodec(codec)
    requires LengthFraming.Consistent(conn)
    requires |Utf8.Encode(Messages.SerializeResponse(t, codec, Messages.Response(Messages.ListOf(all))))| <= INT_MAX
    requires HandleHandshake(s, t, codec, id, link, conn, all, None).Some?
    requires HandleHandshake(s, t, codec, id, link, conn, all, None).value.failure.None?
    requires LengthFraming.Consistent(client) && client.initialized
    requires client.reader == Some(HandleHandshake(s, t, codec, id, link, conn, all, None).value.conn.writer.value[|conn.writer.value|..] + rest)
    ensures LengthFraming.ReceiveResponse(t, codec, client) ==
            Ok((Some(Messages.Response(Messages.ListOf(all))), LengthFraming.Conn(Some(rest), client.writer, true)))
  {
    var h := HandleHandshake(s, t, codec, id, link, conn, all, None).value;
    var frame := LengthFraming.Frame(Messages.SerializeResponse(t, codec, Messages.Response(Messages.ListOf(all))));
    assert h.conn.writer.value == conn.writer.value + frame;
    assert h.conn.writer.value[|conn.writer.value|..] == frame;
    LengthFraming.ResponseOverFrame(t, codec, client, Messages.Response(Messages.ListOf(all)), rest);
  }

  /** As written, a failed handshake keeps one HANDSHAKE hold for good: even after every other
      handshake has released, a client update or a sender still waits. */
  lemma FailedHandshakeBlocksUpdates(s: Server, t: JsonText, codec: EntityCodec, id: Option<string>, link: Link,
                                     conn: LengthFraming.Conn, all: seq<Entity>, sendFailure: Option<Exception>)
    requires LengthFraming.Consistent(conn)
    requires HandleHandshake(s, t, codec, id, link, conn, all, sendFailure).Some?
    requires HandleHandshake(s, t, codec, id, link, conn, all, sendFailure).value.failure.Some?
    ensures var l := HandleHandshake(s, t, codec, id, link, conn, all, sendFailure).value.server.lock;
            HandshakeLock.TryLock(HandshakeLock.UnlockTimes(l, HandshakeLock.Handshake, s.lock.handshakes),
                                  HandshakeLock.Update).None?
  {
    var l := HandleHandshake(s, t, codec, id, link, conn, all, sendFailure).value.server.lock;
    HandshakeLock.UnlockTimesCount(l, HandshakeLock.Handshake, s.lock.handshakes);
  }

  /** The input that shows it: a client that disconnects before the reply is written, on an idle
      server. The handshake fails with an `IOException` and updates wait from then on. */
  lemma DisconnectedHandshakeLeaksLock(st: Store, t: JsonText, codec: EntityCodec, link: Link,
                                       conn: LengthFraming.Conn, all: seq<Entity>)
    requires LengthFraming.Consistent(conn)
    requires link == Link(Some(Bluetooth), BluetoothDevice("00:11:22:33:44:55"))
    ensures var h := HandleHandshake(Server(HandshakeLock.Unlocked, [], st), t, codec, Some("a"), link, conn, all, Some(IOException));
            h.Some? && h.value.failure == Some(IOException) &&
            h.value.server.lock == HandshakeLock.Lock(1, 0) &&
            HandshakeLock.TryLock(h.value.server.lock, HandshakeLock.Update).None?
  {
  }

  /** With the release in place, a failed handshake gives the lock back, so updates proceed once
      the handshakes in progress finish. */
  lemma ReleasingHandshakeFreesUpdates(s: Server, t: JsonText, codec: EntityCodec, id: Option<string>, link: Link,
                                       conn: LengthFraming.Conn, all: seq<Entity>, sendFailure: Option<Exception>)
    requires LengthFraming.Consistent(conn)
    requires HandleHandshakeReleasing(s, t, codec, id, link, conn, all, sendFailure).Some?
    ensures var l := HandleHandshakeReleasing(s, t, codec, id, link, conn, all, sendFailure).value.server.lock;
            HandshakeLock.TryLock(HandshakeLock.UnlockTimes(l, HandshakeLock.Handshake, s.lock.handshakes),
                                  HandshakeLock.Update).Some?
  {
    var l := HandleHandshakeReleasing(s, t, codec, id, link, conn, all, sendFailure).value.server.lock;
    HandshakeLock.UnlockTimesCount(l, HandshakeLock.Handshake, s.lock.handshakes);
  }

  /** A handshake that carries no unique id (as every request does once the request adapter has
      dropped it) adds a peer without an id, and from then on the lookup of any id not already
      listed throws: no new client can complete a handshake. */
  lemma AnonymousPeerLocksOutNewcomers(peers: seq<Peer>, link: Link, id: Option<string>)
    requires Register(peers, None, link).Ok?
    requires Lookup(peers, id) == Ok(None)
    ensures Lookup(Register(peers, None, link).value, id) == Err(NullPointerException)
  {
    var p := PeerFor(None, link).value;
    assert Lookup(peers, None) == Ok(None);
    LookupAppend(peers, id, SetActive(p, true));
  }

  // ---------------------------------------------------------------------------------------------
  // Fan-out

  /** A peer the client-update loop starts a sender for: active, with an id other than the
      request's (a request without an id excludes nobody). */
  predicate UpdateTarget(p: Peer, id: Option<string>) {
    p.active && p.uniqueId.Some? && p.uniqueId != id
  }

  /** A peer that ends the client-update loop: active and without an id, so that comparing its id
      throws. */
  predicate BreaksLoop(p: Peer) {
    p.active && p.uniqueId.None?
  }

  /** The loop of `handleClientUpdates`: the positions it starts senders for, in list order, and
      the exception that ends it early. */
  function UpdateTargets(peers: seq<Peer>, id: Option<string>): (r: (seq<nat>, Option<Exception>))
    ensures r.1.None? <==> forall j :: 0 <= j < |peers| ==> !BreaksLoop(peers[j])
    ensures r.1.Some? ==> r.1.value == NullPointerException
    ensures forall i :: 0 <= i < |r.0| ==> r.0[i] < |peers|
    ensures forall i, j :: 0 <= i < j < |r.0| ==> r.0[i] < r.0[j]
    ensures forall j: int :: j in r.0 <==>
              0 <= j < |peers| && UpdateTarget(peers[j], id) && forall k :: 0 <= k < j ==> !BreaksLoop(peers[k])
    decreases |peers|
  {
    if |peers| == 0 then ([], None)
    else
      var n := |peers| - 1;
      var (targets, failure) := UpdateTargets(peers[..n], id);
      assert forall j :: 0 <= j < n ==> peers[..n][j] == peers[j];
      if failure.Some? || !peers[n].active then (targets, failure)
      else if peers[n].uniqueId.None? then (targets, Some(NullPointerException))
      else if peers[n].uniqueId == id then (targets, None)
      else (targets + [n], None)
  }

  /** The loop of `onEntitiesAvailable`: every active peer, in list order. */
  function ActiveTargets(peers: seq<Peer>): (r: seq<nat>)
    ensures forall i :: 0 <= i < |r| ==> r[i] < |peers|
    ensures forall i, j :: 0 <= i < j < |r| ==> r[i] < r[j]
    ensures forall j: int :: j in r <==> 0 <= j < |peers| && peers[j].active
    decreases |peers|
  {
    if |peers| == 0 then []
    else
      var n := |peers| - 1;
      var targets := ActiveTargets(peers[..n]);
      assert forall j :: 0 <= j < n ==> peers[..n][j] == peers[j];
      if peers[n].active then targets + [n] else targets
  }

  /** One sender per target, all with the same response. */
  function SendersTo(targets: seq<nat>, resp: Messages.Response): (r: seq<Sender>)
    ensures |r| == |targets|
    ensures forall i :: 0 <= i < |r| ==> r[i].peer == targets[i] && r[i].response == resp
  {
    seq(|targets|, i requires 0 <= i < |targets| => Sender(targets[i], resp))
  }

  /** Once the request adapter has dropped the sender's id, the update loop excludes nobody: every
      active peer gets the update back, its own sender included. */
  lemma AnonymousUpdateEchoesToSender(peers: seq<Peer>)
    requires forall j :: 0 <= j < |peers| ==> !BreaksLoop(peers[j])
    ensures forall j: int :: j in UpdateTargets(peers, None).0 <==> j in ActiveTargets(peers)
  {
  }

  // ---------------------------------------------------------------------------------------------
  // Client updates

  /** The records `processUpdate` gets through: none for a null collection, whose size the handler
      has already failed to read, and otherwise those before the first null element. */
  function Reached(c: Messages.Entities): seq<Entity> {
    if c.None? then [] else Messages.BeforeFirstNull(c.value)
  }

  /** `handleClientUpdates` as written. The size of the received collection is logged first, so a
      null collection throws before the lock is taken. Under the UPDATE lock the received records
      are processed in order, and a null record throws once the ones before it are stored. Then a
      sender carrying the processed records is started for every active peer other than the
      request's sender; a peer without an id stops that loop with an exception. After an
      exception under the lock, the lock is never released. */
  function HandleClientUpdates(s: Server, req: Messages.Request, conn: LengthFraming.Conn): (r: Option<Handled>)
    ensures r.None? <==> req.updatedEntities.Some? && s.lock.handshakes > 0
    ensures req.updatedEntities.None? ==> r == Some(Handled(s, conn, [], Some(NullPointerException)))
    ensures r.Some? ==> r.value.server.peers == s.peers && r.value.conn == conn
    ensures r.Some? ==> r.value.server.store == ProcessUpdate(s.store, Reached(req.updatedEntities)).0
    ensures r.Some? && !Messages.NoNulls(req.updatedEntities) ==> r.value.senders == []
    ensures r.Some? ==> forall i :: 0 <= i < |r.value.senders| ==>
              r.value.senders[i].peer < |s.peers| && UpdateTarget(s.peers[r.value.senders[i].peer], req.uniqueId) &&
              r.value.senders[i].response ==
                Messages.Response(Messages.ListOf(ProcessUpdate(s.store, Reached(req.updatedEntities)).1))
    ensures r.Some? && Messages.NoNulls(req.updatedEntities) ==>
              forall j :: 0 <= j < |s.peers| && UpdateTarget(s.peers[j], req.uniqueId) &&
                          (forall k :: 0 <= k < j ==> !BreaksLoop(s.peers[k])) ==>
                exists i :: 0 <= i < |r.value.senders| && r.value.senders[i].peer == j
    ensures r.Some? ==> (r.value.failure.None? <==>
                           Messages.NoNulls(req.updatedEntities) && forall j :: 0 <= j < |s.peers| ==> !BreaksLoop(s.peers[j]))
    ensures r.Some? && r.value.failure.None? ==> r.value.server.lock == s.lock
    ensures r.Some? && r.value.failure.Some? ==> r.value.failure.value == NullPointerException
    ensures r.Some? && r.value.failure.Some? && req.updatedEntities.Some? ==>
              r.value.server.lock == HandshakeLock.Lock(0, s.lock.updates + 1)
  {
    match req.updatedEntities
    case None => Some(Handled(s, conn, [], Some(NullPointerException)))
    case Some(items) =>
      match HandshakeLock.TryLock(s.lock, HandshakeLock.Update)
      case None => None
      case Some(held) =>
        Messages.BeforeFirstNullWhole(req.updatedEntities, []);
        var (st', processed) := ProcessUpdate(s.store, Messages.BeforeFirstNull(items));
        if |Messages.BeforeFirstNull(items)| < |items| then
          Some(Handled(Server(held, s.peers, st'), conn, [], Some(NullPointerException)))
        else
          Some(FanOut(s, held, st', processed, req.uniqueId, conn))
  }

  /** The loop of `handleClientUpdates` once the records are processed: a sender for each target,
      and the release of the UPDATE hold `held` unless a peer without an id ended the loop. */
  function FanOut(s: Server, held: HandshakeLock.Lock, st: Store, processed: seq<Entity>, id: Option<string>,
                  conn: LengthFraming.Conn): (h: Handled)
    requires HandshakeLock.TryLock(s.lock, HandshakeLock.Update) == Some(held)
    ensures h.server.peers == s.peers && h.server.store == st && h.conn == conn
    ensures forall i :: 0 <= i < |h.senders| ==>
              h.senders[i].peer < |s.peers| && UpdateTarget(s.peers[h.senders[i].peer], id) &&
              h.senders[i].response == Messages.Response(Messages.ListOf(processed))
    ensures forall j :: 0 <= j < |s.peers| && UpdateTarget(s.peers[j], id) &&
                        (forall k :: 0 <= k < j ==> !BreaksLoop(s.peers[k])) ==>
              exists i :: 0 <= i < |h.senders| && h.senders[i].peer == j
    ensures h.failure.None? <==> forall j :: 0 <= j < |s.peers| ==> !BreaksLoop(s.peers[j])
    ensures h.failure.None? ==> h.server.lock == s.lock
    ensures h.failure.Some? ==> h.failure.value == NullPointerException && h.server.lock == held
  {
    var (targets, failure) := UpdateTargets(s.peers, id);
    var senders := SendersTo(targets, Messages.Response(Messages.ListOf(processed)));
    assert forall j :: j in targets ==> exists i :: 0 <= i < |senders| && senders[i].peer == j;
    HandshakeLock.UnlockUndoesLock(s.lock, HandshakeLock.Update);
    var lock' := if failure.None? then HandshakeLock.Unlock(held, HandshakeLock.Update).0 else held;
    Handled(Server(lock', s.peers, st), conn, senders, failure)
  }

  /** `handleClientUpdates` with the release in a `finally` around the work done under the lock. A
      null collection still throws before the lock is taken. */
  function HandleClientUpdatesReleasing(s: Server, req: Messages.Request, conn: LengthFraming.Conn): (r: Option<Handled>)
    ensures r.None? <==> req.updatedEntities.Some? && s.lock.handshakes > 0
    ensures r.Some? ==> r.value.server.lock == s.lock
    ensures r.Some? ==> var w := HandleClientUpdates(s, req, conn).value;
              r.value.server.peers == w.server.peers && r.value.server.store == w.server.store &&
              r.value.conn == w.conn && r.value.senders == w.senders && r.value.failure == w.failure
  {
    match HandleClientUpdates(s, req, conn)
    case None => None
    case Some(h) =>
      if h.failure.None? || req.updatedEntities.None? then Some(h)
      else Some(h.(server := h.server.(lock := HandshakeLock.Unlock(h.server.lock, HandshakeLock.Update).0)))
  }

  /** The input that shows it: an idle server whose list holds an active peer without an id (what
      any handshake registers once the adapter has dropped the id). The update fails with a
      `NullPointerException` and handshakes wait from then on. */
  lemma AnonymousPeerLeaksUpdateLock(st: Store, p: Peer, req: Messages.Request, conn: LengthFraming.Conn)
    requires p.active && p.uniqueId.None? && req.updatedEntities.Some?
    ensures var h := HandleClientUpdates(Server(HandshakeLock.Unlocked, [p], st), req, conn);
            h.Some? && h.value.failure == Some(NullPointerException) &&
            HandshakeLock.TryLock(h.value.server.lock, HandshakeLock.Handshake).None?
  {
  }

  /** A null record in an update has the same effect: the records before it are stored, no sender
      is started, and the UPDATE hold stays. */
  lemma NullRecordLeaksUpdateLock(st: Store, peers: seq<Peer>, req: Messages.Request, conn: LengthFraming.Conn)
    requires req.updatedEntities.Some? && !Messages.NoNulls(req.updatedEntities)
    ensures var h := HandleClientUpdates(Server(HandshakeLock.Unlocked, peers, st), req, conn);
            h.Some? && h.value.failure == Some(NullPointerException) && h.value.senders == [] &&
            h.value.server.store == ProcessUpdate(st, Messages.BeforeFirstNull(req.updatedEntities.value)).0 &&
            HandshakeLock.TryLock(h.value.server.lock, HandshakeLock.Handshake).None?
  {
  }

  /** As written, a failed update keeps one UPDATE hold for good: even after every other update
      has released, a handshake still waits. */
  lemma FailedUpdateBlocksHandshakes(s: Server, req: Messages.Request, conn: LengthFraming.Conn)
    requires req.updatedEntities.Some?
    requires HandleClientUpdates(s, req, conn).Some? && HandleClientUpdates(s, req, conn).value.failure.Some?
    ensures var l := HandleClientUpdates(s, req, conn).value.server.lock;
            HandshakeLock.TryLock(HandshakeLock.UnlockTimes(l, HandshakeLock.Update, s.lock.updates),
                                  HandshakeLock.Handshake).None?
  {
    var l := HandleClientUpdates(s, req, conn).value.server.lock;
    HandshakeLock.UnlockTimesCount(l, HandshakeLock.Update, s.lock.updates);
  }

  // ---------------------------------------------------------------------------------------------
  // Poller batches

  /** What `onEntitiesAvailable` leaves: the server, the poller and its store after the reset, the
      senders started, and the exception the reset raised, if any. */
  datatype Pushed = Pushed(server: Server, poller: Poller.Poller, senders: seq<Sender>, failure: Option<Exception>)

  /** `onEntitiesAvailable`: a sender with the batch for every active peer, with no exclusion and
      without the lock, and then, at once and whatever the senders will do, the batch's dirty
      flags are reset and it leaves the pending list. */
  function OnEntitiesAvailable(s: Server, p: Poller.Poller, es: seq<Entity>): (r: Pushed)
    ensures r.server.lock == s.lock && r.server.peers == s.peers
    ensures |r.senders| == |ActiveTargets(s.peers)|
    ensures forall i :: 0 <= i < |r.senders| ==>
              r.senders[i].response == Messages.Response(Messages.ListOf(es)) && r.senders[i].peer < |s.peers| &&
              s.peers[r.senders[i].peer].active
    ensures forall j :: 0 <= j < |s.peers| && s.peers[j].active ==>
              exists i :: 0 <= i < |r.senders| && r.senders[i].peer == j
    ensures forall e :: e in es ==> e !in r.poller.pending
    ensures r.failure.None? <==> forall i :: 0 <= i < |es| ==> es[i].id != ENTITY_DEFAULT_ID
    ensures r.failure.None? ==> forall i :: 0 <= i < |es| && Dirty in WrittenColumns(KindOf(es[i])) ==>
              Poller.DirtyCleared(r.server.store, KindOf(es[i]), es[i].id)
  {
    var targets := ActiveTargets(s.peers);
    var senders := SendersTo(targets, Messages.Response(Messages.ListOf(es)));
    assert forall j :: j in targets ==> exists i :: 0 <= i < |senders| && senders[i].peer == j;
    var reset := Poller.ResetEntityDirtyFlag(p, s.store, es);
    assert reset.failure.None? ==> forall i :: 0 <= i < |es| && Dirty in WrittenColumns(KindOf(es[i])) ==>
             Poller.DirtyCleared(reset.store, KindOf(es[i]), es[i].id) by {
      if reset.failure.None? {
        forall i | 0 <= i < |es| && Dirty in WrittenColumns(KindOf(es[i]))
          ensures Poller.DirtyCleared(reset.store, KindOf(es[i]), es[i].id)
        {
          Poller.ClearDirtyClears(s.store, es, i);
        }
      }
    }
    Pushed(Server(s.lock, s.peers, reset.store), reset.poller, senders, reset.failure)
  }

  // ---------------------------------------------------------------------------------------------
  // Update senders

  /** What an update sender leaves: the server, the connection after the send if it got that far,
      and the exception that ended it, if any. */
  datatype SenderRun = SenderRun(server: Server, conn: Option<LengthFraming.Conn>, failure: Option<Exception>)

  /** `UpdateSender.run` as written: under the UPDATE lock the peer is connected to (`connect` is
      what `Peer.connect` gives) and the response is sent (`sendFailure` is the exception the
      socket raises on the write, if it does); success stamps the peer's last-update time from the
      clock and releases the lock. An I/O failure marks the peer inactive, any other failure is
      only logged, and on either the lock stays held. */
  function RunSender(s: Server, snd: Sender, t: JsonText, codec: EntityCodec, connect: Result<LengthFraming.Conn>,
                     sendFailure: Option<Exception>, nowMillis: int): (r: Option<SenderRun>)
    requires snd.peer < |s.peers| && IsLong(nowMillis)
    requires connect.Ok? ==> LengthFraming.Consistent(connect.value)
    ensures r.None? <==> s.lock.handshakes > 0
    ensures r.Some? ==> r.value.server.store == s.store && |r.value.server.peers| == |s.peers|
    ensures r.Some? ==> forall j :: 0 <= j < |s.peers| && j != snd.peer ==> r.value.server.peers[j] == s.peers[j]
    ensures r.Some? ==> var (p, q) := (s.peers[snd.peer], r.value.server.peers[snd.peer]);
              q.uniqueId == p.uniqueId && q.connectionType == p.connectionType && q.endpoint == p.endpoint
    ensures r.Some? ==> (r.value.failure.None? <==> connect.Ok? && connect.value.initialized && sendFailure.None?)
    ensures r.Some? && r.value.failure.None? ==>
              var q := r.value.server.peers[snd.peer];
              q.active == s.peers[snd.peer].active && q.lastUpdateTime == ToInt(Div(nowMillis, 1000)) &&
              r.value.server.lock == s.lock &&
              r.value.conn == Some(LengthFraming.Conn(connect.value.reader,
                Some(connect.value.writer.value + LengthFraming.Frame(Messages.SerializeResponse(t, codec, snd.response))), true))
    ensures r.Some? && r.value.failure.Some? && IsIOException(r.value.failure.value) ==>
              !r.value.server.peers[snd.peer].active &&
              r.value.server.peers[snd.peer].lastUpdateTime == s.peers[snd.peer].lastUpdateTime
    ensures r.Some? && r.value.failure.Some? && !IsIOException(r.value.failure.value) ==>
              r.value.server.peers == s.peers
    ensures r.Some? && r.value.failure.Some? ==> r.value.server.lock == HandshakeLock.Lock(0, s.lock.updates + 1)
  {
    match HandshakeLock.TryLock(s.lock, HandshakeLock.Update)
    case None => None
    case Some(held) =>
      var sent := match connect
        case Err(x) => Err(x)
        case Ok(c) =>
          if sendFailure.Some? then Err(sendFailure.value)
          else LengthFraming.SendResponse(t, codec, c, snd.response);
      var p := s.peers[snd.peer];
      match sent
      case Ok(c') =>
        HandshakeLock.UnlockUndoesLock(s.lock, HandshakeLock.Update);
        var peers := UpdateAt(s.peers, snd.peer, SetLastUpdateTimeNow(p, nowMillis));
        Some(SenderRun(Server(HandshakeLock.Unlock(held, HandshakeLock.Update).0, peers, s.store), Some(c'), None))
      case Err(x) =>
        var peers := if IsIOException(x) then UpdateAt(s.peers, snd.peer, SetActive(p, false)) else s.peers;
        Some(SenderRun(Server(held, peers, s.store), None, Some(x)))
  }

  /** `UpdateSender.run` with the release in a `finally`. */
  function RunSenderReleasing(s: Server, snd: Sender, t: JsonText, codec: EntityCodec, connect: Result<LengthFraming.Conn>,
                              sendFailure: Option<Exception>, nowMillis: int): (r: Option<SenderRun>)
    requires snd.peer < |s.peers| && IsLong(nowMillis)
    requires connect.Ok? ==> LengthFraming.Consistent(connect.value)
    ensures r.None? <==> s.lock.handshakes > 0
    ensures r.Some? ==> r.value.server.lock == s.lock
    ensures r.Some? ==> var w := RunSender(s, snd, t, codec, connect, sendFailure, nowMillis).value;
              r.value.server.peers == w.server.peers && r.value.server.store == w.server.store &&
              r.value.conn == w.conn && r.value.failure == w.failure
  {
    match RunSender(s, snd, t, codec, connect, sendFailure, nowMillis)
    case None => None
    case Some(run) =>
      if run.failure.None? then Some(run)
      else Some(run.(server := run.server.(lock := HandshakeLock.Unlock(run.server.lock, HandshakeLock.Update).0)))
  }

  /** As written, a failed send keeps one UPDATE hold for good: even after every other update has
      released, a handshake still waits. */
  lemma FailedSenderBlocksHandshakes(s: Server, snd: Sender, t: JsonText, codec: EntityCodec,
                                     connect: Result<LengthFraming.Conn>, sendFailure: Option<Exception>, nowMillis: int)
    requires snd.peer < |s.peers| && IsLong(nowMillis)
    requires connect.Ok? ==> LengthFraming.Consistent(connect.value)
    requires RunSender(s, snd, t, codec, connect, sendFailure, nowMillis).Some?
    requires RunSender(s, snd, t, codec, connect, sendFailure, nowMillis).value.failure.Some?
    ensures var l := RunSender(s, snd, t, codec, connect, sendFailure, nowMillis).value.server.lock;
            HandshakeLock.TryLock(HandshakeLock.UnlockTimes(l, HandshakeLock.Update, s.lock.updates),
                                  HandshakeLock.Handshake).None?
  {
    var l := RunSender(s, snd, t, codec, connect, sendFailure, nowMillis).value.server.lock;
    HandshakeLock.UnlockTimesCount(l, HandshakeLock.Update, s.lock.updates);
  }

  /** The input that shows it: an idle server pushing to its one peer, which has gone out of range,
      so that connecting times out. The peer is marked inactive, and no handshake, not even the
      peer's own when it comes back, gets the lock again. */
  lemma UnreachablePeerLeaksLock(st: Store, p: Peer, resp: Messages.Response, t: JsonText, codec: EntityCodec, nowMillis: int)
    requires IsLong(nowMillis)
    ensures var r := RunSender(Server(HandshakeLock.Unlocked, [p], st), Sender(0, resp), t, codec,
                               Err(InterruptedIOException), None, nowMillis);
            r.Some? && !r.value.server.peers[0].active &&
            HandshakeLock.TryLock(r.value.server.lock, HandshakeLock.Handshake).None?
  {
  }

  /** With the release in place, a failed send gives the lock back. */
  lemma ReleasingSenderFreesHandshakes(s: Server, snd: Sender, t: JsonText, codec: EntityCodec,
                                       connect: Result<LengthFraming.Conn>, sendFailure: Option<Exception>, nowMillis: int)
    requires snd.peer < |s.peers| && IsLong(nowMillis)
    requires connect.Ok? ==> LengthFraming.Consistent(connect.value)
    requires RunSenderReleasing(s, snd, t, codec, connect, sendFailure, nowMillis).Some?
    ensures var l := RunSenderReleasing(s, snd, t, codec, connect, sendFailure, nowMillis).value.server.lock;
            HandshakeLock.TryLock(HandshakeLock.UnlockTimes(l, HandshakeLock.Update, s.lock.updates),
                                  HandshakeLock.Handshake).Some?
  {
    var l := RunSenderReleasing(s, snd, t, codec, connect, sendFailure, nowMillis).value.server.lock;
    HandshakeLock.UnlockTimesCount(l, HandshakeLock.Update, s.lock.updates);
  }

  // ---------------------------------------------------------------------------------------------
  // Client handlers

  /** The dispatch in `ClientHandler.run`, as written: a handshake goes to `handleHandshake` and an
      update to `handleClientUpdates`; a request of no known type is only logged; a null request
      throws when its id is read. A handler that fails keeps the hold it took. */
  function HandleRequest(s: Server, t: JsonText, codec: EntityCodec, req: Option<Messages.Request>, link: Link,
                         conn: LengthFraming.Conn, all: seq<Entity>, sendFailure: Option<Exception>): (r: Option<Handled>)
    requires LengthFraming.Consistent(conn)
    ensures r.Some? && r.value.failure.None? ==> r.value.server.lock == s.lock
    ensures req.None? ==> r == Some(Handled(s, conn, [], Some(NullPointerException)))
    ensures req.Some? && req.value.requestType.None? ==> r == Some(Handled(s, conn, [], None))
    ensures req.Some? && req.value.requestType == Some(Messages.Handshake) ==>
              (r.None? <==> s.lock.updates > 0) &&
              (r.Some? && Register(s.peers, req.value.uniqueId, link).Ok? ==>
                 Registered(s.peers, r.value.server.peers, req.value.uniqueId)) &&
              (r.Some? && r.value.failure.Some? ==> r.value.server.lock == HandshakeLock.Lock(s.lock.handshakes + 1, 0))
    ensures req.Some? && req.value.requestType == Some(Messages.Update) ==>
              (r.None? <==> req.value.updatedEntities.Some? && s.lock.handshakes > 0) &&
              (r.Some? ==> r.value.server.peers == s.peers) &&
              (r.Some? && r.value.failure.Some? ==> r.value.failure.value == NullPointerException) &&
              (r.Some? && r.value.failure.Some? && req.value.updatedEntities.Some? ==>
                 r.value.server.lock == HandshakeLock.Lock(0, s.lock.updates + 1))
  {
    match req
    case None => Some(Handled(s, conn, [], Some(NullPointerException)))
    case Some(q) =>
      match q.requestType
      case None => Some(Handled(s, conn, [], None))
      case Some(Handshake) => HandleHandshake(s, t, codec, q.uniqueId, link, conn, all, sendFailure)
      case Some(Update) => HandleClientUpdates(s, q, conn)
  }

  /** `ClientHandler.run` as written: one request is read from the connection and dispatched; a
      failure to read it ends the handler with nothing changed. */
  function ServeConnection(s: Server, t: JsonText, codec: EntityCodec, link: Link, conn: LengthFraming.Conn,
                           all: seq<Entity>, sendFailure: Option<Exception>): (r: Option<Handled>)
    requires LengthFraming.Consistent(conn)
    ensures r.Some? && r.value.failure.None? ==> r.value.server.lock == s.lock
    ensures LengthFraming.ReceiveRequest(t, codec, conn).Err? ==>
              r == Some(Handled(s, conn, [], Some(LengthFraming.ReceiveRequest(t, codec, conn).error)))
  {
    match LengthFraming.ReceiveRequest(t, codec, conn)
    case Err(x) => Some(Handled(s, conn, [], Some(x)))
    case Ok((req, conn')) => HandleRequest(s, t, codec, req, link, conn', all, sendFailure)
  }

  /** A request a client sent reaches the handler on the rest of the stream with its type, time and
      entities, but without its unique id. */
  lemma SentRequestIsHandled(s: Server, t: JsonText, codec: EntityCodec, link: Link, conn: LengthFraming.Conn,
                             all: seq<Entity>, sendFailure: Option<Exception>, req: Messages.Request, rest: seq<Utf8.byte>)
    requires LawfulText(t) && LawfulCodec(codec)
    requires req.requestType.Some? && IsLong(req.lastRequestTime)
    requires |Utf8.Encode(Messages.SerializeRequest(t, codec, req).value)| <= INT_MAX
    requires LengthFraming.Consistent(conn) && conn.initialized
    requires conn.reader == Some(LengthFraming.Frame(Messages.SerializeRequest(t, codec, req).value) + rest)
    ensures ServeConnection(s, t, codec, link, conn, all, sendFailure) ==
            HandleRequest(s, t, codec, Some(req.(uniqueId := None)), link,
                          LengthFraming.Conn(Some(rest), conn.writer, true), all, sendFailure)
  {
    LengthFraming.RequestOverFrame(t, codec, conn, req, rest);
  }

  /** End to end, as written: the first client to complete a handshake with an idle server that
      knows no peers is registered without an id, although it sent one. From then on the lookup
      of any other id throws, so no newcomer completes a handshake, and every client update whose
      collection is not null (as in every request a client builds) fails with a
      NullPointerException that keeps an UPDATE hold, so handshakes wait for good. */
  lemma FirstHandshakeBreaksServer(st: Store, t: JsonText, codec: EntityCodec, link: Link, conn: LengthFraming.Conn,
                                   all: seq<Entity>, req: Messages.Request, rest: seq<Utf8.byte>,
                                   other: Option<string>, upd: Messages.Request, conn2: LengthFraming.Conn)
    requires LawfulText(t) && LawfulCodec(codec)
    requires req.requestType == Some(Messages.Handshake) && IsLong(req.lastRequestTime)
    requires |Utf8.Encode(Messages.SerializeRequest(t, codec, req).value)| <= INT_MAX
    requires LengthFraming.Consistent(conn) && conn.initialized
    requires conn.reader == Some(LengthFraming.Frame(Messages.SerializeRequest(t, codec, req).value) + rest)
    requires PeerFor(None, link).Ok?
    requires upd.requestType == Some(Messages.Update) && upd.updatedEntities.Some? && LengthFraming.Consistent(conn2)
    ensures var h := ServeConnection(Server(HandshakeLock.Unlocked, [], st), t, codec, link, conn, all, None);
            h.Some? && h.value.failure.None? && h.value.server.lock == HandshakeLock.Unlocked &&
            |h.value.server.peers| == 1 && h.value.server.peers[0].uniqueId.None? &&
            Lookup(h.value.server.peers, other) == Err(NullPointerException) &&
            var u := HandleRequest(h.value.server, t, codec, Some(upd), link, conn2, all, None);
            u.Some? && u.value.failure == Some(NullPointerException) &&
            HandshakeLock.TryLock(u.value.server.lock, HandshakeLock.Handshake).None?
  {
    var s := Server(HandshakeLock.Unlocked, [], st);
    var conn' := LengthFraming.Conn(Some(rest), conn.writer, true);
    SentRequestIsHandled(s, t, codec, link, conn, all, None, req, rest);
    assert HandleRequest(s, t, codec, Some(req.(uniqueId := None)), link, conn', all, None) ==
           HandleHandshake(s, t, codec, None, link, conn', all, None);
    AnonymousHandshakeOnEmptyList(st, t, codec, link, conn', all);
    var peers := Register([], None, link).value;
    assert peers == [SetActive(PeerFor(None, link).value, true)];
    AnonymousPeerLocksOutNewcomers([], link, other);
    AnonymousPeerLeaksUpdateLock(st, peers[0], upd, conn2);
    assert HandleRequest(Server(HandshakeLock.Unlocked, peers, st), t, codec, Some(upd), link, conn2, all, None) ==
           HandleClientUpdates(Server(HandshakeLock.Unlocked, peers, st), upd, conn2);
  }

  /** The handshake step of `FirstHandshakeBreaksServer`: on an idle server with no peers, a
      handshake without an id that can be answered succeeds, releases the lock and leaves exactly
      the registered list. */
  lemma AnonymousHandshakeOnEmptyList(st: Store, t: JsonText, codec: EntityCodec, link: Link,
                                      conn: LengthFraming.Conn, all: seq<Entity>)
    requires LengthFraming.Consistent(conn) && conn.initialized && PeerFor(None, link).Ok?
    ensures var h := HandleHandshake(Server(HandshakeLock.Unlocked, [], st), t, codec, None, link, conn, all, None);
            h.Some? && h.value.failure.None? &&
            h.value.server == Server(HandshakeLock.Unlocked, Register([], None, link).value, st)
  {
    assert Lookup([], None) == Ok(None);
  }

  /** The dispatch in `ClientHandler.run` with the corrected handlers, which leave the lock as
      they found it on every path. */
  function HandleRequestReleasing(s: Server, t: JsonText, codec: EntityCodec, req: Option<Messages.Request>, link: Link,
                                  conn: LengthFraming.Conn, all: seq<Entity>, sendFailure: Option<Exception>): (r: Option<Handled>)
    requires LengthFraming.Consistent(conn)
    ensures r.Some? ==> r.value.server.lock == s.lock
    ensures req.None? ==> r == Some(Handled(s, conn, [], Some(NullPointerException)))
    ensures req.Some? && req.value.requestType.None? ==> r == Some(Handled(s, conn, [], None))
    ensures req.Some? && req.value.requestType == Some(Messages.Handshake) ==>
              (r.None? <==> s.lock.updates > 0) &&
              (r.Some? && Register(s.peers, req.value.uniqueId, link).Ok? ==>
                 Registered(s.peers, r.value.server.peers, req.value.uniqueId))
    ensures req.Some? && req.value.requestType == Some(Messages.Update) ==>
              (r.None? <==> req.value.updatedEntities.Some? && s.lock.handshakes > 0) &&
              (r.Some? ==> r.value.server.peers == s.peers)
  {
    match req
    case None => Some(Handled(s, conn, [], Some(NullPointerException)))
    case Some(q) =>
      match q.requestType
      case None => Some(Handled(s, conn, [], None))
      case Some(Handshake) => HandleHandshakeReleasing(s, t, codec, q.uniqueId, link, conn, all, sendFailure)
      case Some(Update) => HandleClientUpdatesReleasing(s, q, conn)
  }

  /** `ClientHandler.run` with both corrections: the request is read with its unique id and handed
      to the releasing handlers, so serving a connection never changes the lock. */
  function ServeConnectionReleasing(s: Server, t: JsonText, codec: EntityCodec, link: Link, conn: LengthFraming.Conn,
                                    all: seq<Entity>, sendFailure: Option<Exception>): (r: Option<Handled>)
    requires LengthFraming.Consistent(conn)
    ensures r.Some? ==> r.value.server.lock == s.lock
    ensures LengthFraming.ReceiveRequestWithId(t, codec, conn).Err? ==>
              r == Some(Handled(s, conn, [], Some(LengthFraming.ReceiveRequestWithId(t, codec, conn).error)))
  {
    match LengthFraming.ReceiveRequestWithId(t, codec, conn)
    case Err(x) => Some(Handled(s, conn, [], Some(x)))
    case Ok((req, conn')) => HandleRequestReleasing(s, t, codec, req, link, conn', all, sendFailure)
  }

  /** With both corrections, a request a client sent reaches the handler whole, with its id, and
      is handled on the rest of the stream. */
  lemma SentRequestWithIdIsHandled(s: Server, t: JsonText, codec: EntityCodec, link: Link, conn: LengthFraming.Conn,
                                   all: seq<Entity>, sendFailure: Option<Exception>, req: Messages.Request, rest: seq<Utf8.byte>)
    requires LawfulText(t) && LawfulCodec(codec)
    requires req.requestType.Some? && IsLong(req.lastRequestTime)
    requires |Utf8.Encode(Messages.SerializeRequestWithId(t, codec, req).value)| <= INT_MAX
    requires LengthFraming.Consistent(conn) && conn.initialized
    requires conn.reader == Some(LengthFraming.Frame(Messages.SerializeRequestWithId(t, codec, req).value) + rest)
    ensures ServeConnectionReleasing(s, t, codec, link, conn, all, sendFailure) ==
            HandleRequestReleasing(s, t, codec, Some(req), link, LengthFraming.Conn(Some(rest), conn.writer, true), all, sendFailure)
  {
    LengthFraming.RequestWithIdOverFrame(t, codec, conn, req, rest);
  }
}
