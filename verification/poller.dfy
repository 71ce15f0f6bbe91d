/** The server's dirty-record poller. Each tick it takes the dirty records the store reports,
    drops those already announced and not yet acknowledged (the pending list), gives every record
    without a valid global id a fresh one, drops the records whose references are still
    unresolved, and announces the rest to its listener. The listener acknowledges a batch with
    `resetEntityDirtyFlag`, which clears the records' dirty flags and takes them off the pending
    list. The thread, its sleep and its interruption are reduced to flags. */
module Poller {
  import opened Wrappers
  import opened Provider
  import opened EntityBase
  import opened Records
  import opened EntityOps
  import Seqs

  /** What the poller tells records apart by: the class and the local id. */
  function Key(e: Entity): (Kind, int) {
    (KindOf(e), e.id)
  }

  function Keys(es: seq<Entity>): set<(Kind, int)> {
    set e | e in es :: Key(e)
  }

  /** A record of the same class and local id as `e` is on the pending list. */
  predicate IsPending(pending: seq<Entity>, e: Entity) {
    Key(e) in Keys(pending)
  }

  function NotPending(pending: seq<Entity>): Entity -> bool {
    e => !IsPending(pending, e)
  }

  /** `removePendingEntities`: for each record, a scan of the pending list for one of the same
      class and local id; the records with no such match are kept, in order. */
  method RemovePendingEntities(pending: seq<Entity>, entities: seq<Entity>) returns (filtered: seq<Entity>)
    ensures filtered == Seqs.Filter(NotPending(pending), entities)
    ensures forall i :: 0 <= i < |filtered| ==> filtered[i] in entities && !IsPending(pending, filtered[i])
    ensures forall i :: 0 <= i < |entities| && !IsPending(pending, entities[i]) ==> entities[i] in filtered
  {
    filtered := [];
    var i := 0;
    while i < |entities|
      invariant 0 <= i <= |entities|
      invariant filtered == Seqs.Filter(NotPending(pending), entities[..i])
    {
      var e := entities[i];
      var isPending := ScanPending(pending, e);
      RemovePendingStep(pending, entities, i);
      if !isPending {
        filtered := filtered + [e];
      }
      i := i + 1;
    }
    assert entities[..i] == entities;
  }

  /** One step of the outer loop of `removePendingEntities`. */
  lemma RemovePendingStep(pending: seq<Entity>, entities: seq<Entity>, i: nat)
    requires i < |entities|
    ensures Seqs.Filter(NotPending(pending), entities[..i + 1]) ==
              Seqs.Filter(NotPending(pending), entities[..i]) + (if IsPending(pending, entities[i]) then [] else [entities[i]])
  {
    assert entities[..i + 1] == entities[..i] + [entities[i]];
    Seqs.FilterSnoc(NotPending(pending), entities[..i], entities[i]);
  }

  /** The inner loop of `removePendingEntities`: the scan stops at the first pending record of the
      same class and local id. */
  method ScanPending(pending: seq<Entity>, e: Entity) returns (found: bool)
    ensures found <==> IsPending(pending, e)
  {
    found := false;
    var j := 0;
    while j < |pending|
      invariant 0 <= j <= |pending|
      invariant forall k :: 0 <= k < j ==> Key(pending[k]) != Key(e)
    {
      if KindOf(pending[j]) == KindOf(e) && pending[j].id == e.id {
        assert Key(pending[j]) == Key(e);
        return true;
      }
      j := j + 1;
    }
  }

  // ---------------------------------------------------------------------------------------------
  // Global ids

  /** One record through `processGlobalIds`: its references' global ids are fetched; a record
      without a valid global id of its own takes the UUID `u` and is written back with `update`,
      which refuses a record that has no local id. */
  function ProcessOne(st: Store, e: Entity, u: string): (r: Result<(Store, Entity)>)
    ensures r.Err? <==> !IsGlobalIdValid(e.globalId) && e.id == ENTITY_DEFAULT_ID
    ensures r.Err? ==> r.error == IllegalStateException
    ensures r.Ok? ==> Key(r.value.1) == Key(e) && RefLocalIds(r.value.1) == RefLocalIds(e)
    ensures r.Ok? ==> RefGlobalIds(r.value.1) == RefGlobalIds(FetchGlobalIds(st, e))
    ensures r.Ok? && IsGlobalIdValid(e.globalId) ==> r.value == (st, FetchGlobalIds(st, e))
    ensures r.Ok? && !IsGlobalIdValid(e.globalId) ==>
              r.value.1.globalId == Some(u) && r.value.0 == Update(st, r.value.1).value.0
  {
    var fetched := FetchGlobalIds(st, e);
    if IsGlobalIdValid(fetched.globalId) then Ok((st, fetched))
    else
      var named := EntityOps.WithGlobalId(fetched, Some(u));
      match Update(st, named)
      case Err(x) => Err(x)
      case Ok((st', _)) => Ok((st', named))
  }

  /** `e` is `orig` after processing with the UUID `u`: the same record and references, under its
      old global id when that was valid and under `u` otherwise. */
  predicate Assigns(e: Entity, orig: Entity, u: string) {
    && Key(e) == Key(orig) && RefLocalIds(e) == RefLocalIds(orig)
    && e.globalId == (if IsGlobalIdValid(orig.globalId) then orig.globalId else Some(u))
  }

  /** The step of `AssignGlobalIds`: a processed head before records processed from the tail. */
  lemma AssignedTail(e: Entity, es: seq<Entity>, rest: seq<Entity>, uuid: nat -> string, from: nat)
    requires 0 < |es| && Assigns(e, es[0], uuid(from)) && |rest| < |es|
    requires forall i :: 0 <= i < |rest| ==> Assigns(rest[i], es[1..][i], uuid(from + 1 + i))
    ensures forall i :: 0 <= i < |rest| + 1 ==> Assigns(([e] + rest)[i], es[i], uuid(from + i))
  {
    forall i | 0 <= i < |rest| + 1
      ensures Assigns(([e] + rest)[i], es[i], uuid(from + i))
    {
      if i > 0 {
        assert ([e] + rest)[i] == rest[i - 1] && es[1..][i - 1] == es[i] && from + 1 + (i - 1) == from + i;
      }
    }
  }

  /** A record the loop can process: it has a local id to be written back under, or a valid global
      id and so needs no write. */
  predicate Assignable(e: Entity) {
    e.id != ENTITY_DEFAULT_ID || IsGlobalIdValid(e.globalId)
  }

  lemma AllAssignableCons(es: seq<Entity>)
    requires 0 < |es|
    ensures (forall i :: 0 <= i < |es| ==> Assignable(es[i])) <==>
              Assignable(es[0]) && forall i :: 0 <= i < |es[1..]| ==> Assignable(es[1..][i])
  {
    if Assignable(es[0]) && forall i :: 0 <= i < |es[1..]| ==> Assignable(es[1..][i]) {
      forall i | 0 <= i < |es| ensures Assignable(es[i]) {
        if i > 0 {
          assert es[i] == es[1..][i - 1];
        }
      }
    }
  }

  /** The records processed so far, the store they were written to, and the exception that cut
      the loop short, if any. */
  datatype Assigned = Assigned(store: Store, entities: seq<Entity>, failure: Option<Exception>)

  /** The loop of `processGlobalIds` before the filter: `uuid(i)` is what the generator returns
      when the record at position `i` needs an id. A failure leaves the earlier writes in place. */
  function AssignGlobalIds(st: Store, es: seq<Entity>, uuid: nat -> string, from: nat): (r: Assigned)
    ensures r.failure.None? <==> forall i :: 0 <= i < |es| ==> Assignable(es[i])
    ensures r.failure.Some? ==> r.failure.value == IllegalStateException
    ensures r.failure.None? ==> |r.entities| == |es|
    ensures |r.entities| <= |es|
    ensures (forall i :: 0 <= i < |es| ==> IsGlobalIdValid(es[i].globalId)) ==> r.store == st
    ensures forall i :: 0 <= i < |r.entities| ==> Assigns(r.entities[i], es[i], uuid(from + i))
    decreases |es|
  {
    if |es| == 0 then Assigned(st, [], None)
    else match ProcessOne(st, es[0], uuid(from))
      case Err(x) =>
        assert !Assignable(es[0]);
        Assigned(st, [], Some(x))
      case Ok((st', e')) =>
        var rest := AssignGlobalIds(st', es[1..], uuid, from + 1);
        assert forall i :: 0 <= i < |es| - 1 ==> es[1..][i] == es[i + 1];
        AllAssignableCons(es);
        AssignedTail(e', es, rest.entities, uuid, from);
        Assigned(rest.store, [e'] + rest.entities, rest.failure)
  }

  /** `processGlobalIds`: of the processed records, exactly those whose own and referenced global
      ids are all valid, in order; the loop's failure, if any, is passed on. */
  function ProcessGlobalIds(st: Store, es: seq<Entity>, uuid: nat -> string): (r: Assigned)
    ensures var a := AssignGlobalIds(st, es, uuid, 0);
      && r.store == a.store && r.failure == a.failure
      && Seqs.IsSubsequence(r.entities, a.entities)
      && (forall i :: 0 <= i < |r.entities| ==> IsAllGlobalIdsSet(r.entities[i]))
      && (forall i :: 0 <= i < |a.entities| && IsAllGlobalIdsSet(a.entities[i]) ==> a.entities[i] in r.entities)
  {
    var a := AssignGlobalIds(st, es, uuid, 0);
    Assigned(a.store, Seqs.Filter(IsAllGlobalIdsSet, a.entities), a.failure)
  }

  /** A record that references nobody is never dropped once the generator yields non-empty ids. */
  lemma UnreferencingRecordsKept(st: Store, es: seq<Entity>, uuid: nat -> string, i: nat)
    requires forall n :: |uuid(n)| > 0
    requires AssignGlobalIds(st, es, uuid, 0).failure.None?
    requires i < |es| && RefGlobalIds(es[i]) == []
    ensures AssignGlobalIds(st, es, uuid, 0).entities[i] in ProcessGlobalIds(st, es, uuid).entities
  {
    var a := AssignGlobalIds(st, es, uuid, 0);
    assert Assigns(a.entities[i], es[i], uuid(i));
    assert IsGlobalIdValid(a.entities[i].globalId);
    RefsOfKind(a.entities[i], es[i]);
    assert IsAllGlobalIdsSet(a.entities[i]);
  }

  /** References come with the class: records of the same class reference equally many. */
  lemma RefsOfKind(a: Entity, b: Entity)
    requires KindOf(a) == KindOf(b)
    ensures |RefGlobalIds(a)| == |RefGlobalIds(b)|
  {
  }

  /** The keys of a filtered list are among the keys of the list. */
  lemma FilterKeys(p: Entity -> bool, es: seq<Entity>)
    ensures Keys(Seqs.Filter(p, es)) <= Keys(es)
  {
    var r := Seqs.Filter(p, es);
    forall k | k in Keys(r) ensures k in Keys(es) {
      var e :| e in r && Key(e) == k;
      var i :| 0 <= i < |r| && r[i] == e;
      assert e in es;
    }
  }

  /** Records processed from a list carry keys of that list. */
  lemma AssignedKeys(st: Store, es: seq<Entity>, uuid: nat -> string)
    ensures Keys(AssignGlobalIds(st, es, uuid, 0).entities) <= Keys(es)
  {
    var a := AssignGlobalIds(st, es, uuid, 0).entities;
    forall k | k in Keys(a) ensures k in Keys(es) {
      var e :| e in a && Key(e) == k;
      var i :| 0 <= i < |a| && a[i] == e;
      assert Assigns(a[i], es[i], uuid(i));
      assert Key(es[i]) == k;
    }
  }

  // ---------------------------------------------------------------------------------------------
  // The polling loop

  /** The poller thread: the pending list, the stopping flag `stopPolling` sets, whether the
      thread has been interrupted, and whether the loop has ended by an exception. */
  datatype Poller = Poller(pending: seq<Entity>, stopping: bool, interrupted: bool, terminated: bool)

  /** The constructor: nothing pending, not stopping. */
  function NewPoller(): (p: Poller)
    ensures p.pending == [] && !p.stopping && !p.interrupted && !p.terminated
  {
    Poller([], false, false, false)
  }

  /** The loop is still polling. */
  predicate Polling(p: Poller) {
    !p.stopping && !p.terminated
  }

  /** One tick's outcome: the poller, the store, and the batch handed to the listener, `None`
      when the listener is not called. */
  datatype Tick = Tick(poller: Poller, store: Store, announced: Option<seq<Entity>>)

  /** One pass of the loop in `run`. `dirty` is what the store reports as updated records (the
      query itself is not part of this model) and `uuid` the generator for this pass. An
      exception ends the loop, leaving whatever the pass had written. */
  function PollOnce(p: Poller, st: Store, dirty: seq<Entity>, uuid: nat -> string): (r: Tick)
    ensures !Polling(p) ==> r == Tick(p, st, None)
    ensures r.announced.Some? ==> |r.announced.value| > 0 && r.poller.pending == p.pending + r.announced.value
    ensures r.announced.None? ==> r.poller.pending == p.pending
    ensures r.announced.Some? ==> forall i :: 0 <= i < |r.announced.value| ==> IsAllGlobalIdsSet(r.announced.value[i])
    ensures r.poller.stopping == p.stopping && r.poller.interrupted == p.interrupted
    ensures r.poller.terminated ==> r.announced.None?
  {
    if !Polling(p) then Tick(p, st, None)
    else
      var unseen := Seqs.Filter(NotPending(p.pending), dirty);
      var processed := ProcessGlobalIds(st, unseen, uuid);
      if processed.failure.Some? then Tick(p.(terminated := true), processed.store, None)
      else if |processed.entities| == 0 then Tick(p, processed.store, None)
      else Tick(p.(pending := p.pending + processed.entities), processed.store, Some(processed.entities))
  }

  /** A record that is pending is never announced again by a tick. */
  lemma PendingNotReannounced(p: Poller, st: Store, dirty: seq<Entity>, uuid: nat -> string)
    ensures var r := PollOnce(p, st, dirty, uuid);
      r.announced.Some? ==> Keys(r.announced.value) !! Keys(p.pending)
  {
    var r := PollOnce(p, st, dirty, uuid);
    if r.announced.Some? {
      var unseen := Seqs.Filter(NotPending(p.pending), dirty);
      var a := AssignGlobalIds(st, unseen, uuid, 0);
      assert r.announced.value == Seqs.Filter(IsAllGlobalIdsSet, a.entities);
      FilterKeys(IsAllGlobalIdsSet, a.entities);
      AssignedKeys(st, unseen, uuid);
      UnseenNotPending(p.pending, dirty);
    }
  }

  /** The records that survive the pending filter carry no pending key. */
  lemma UnseenNotPending(pending: seq<Entity>, dirty: seq<Entity>)
    ensures Keys(Seqs.Filter(NotPending(pending), dirty)) !! Keys(pending)
  {
    var unseen := Seqs.Filter(NotPending(pending), dirty);
    forall k | k in Keys(unseen) ensures k !in Keys(pending) {
      var e :| e in unseen && Key(e) == k;
      var i :| 0 <= i < |unseen| && unseen[i] == e;
      assert NotPending(pending)(e);
    }
  }

  /** Several passes of the loop, one per element of `passes` (the dirty records and the
      generator of that pass), collecting the batches announced. */
  function PollMany(p: Poller, st: Store, passes: seq<(seq<Entity>, nat -> string)>): (r: (Poller, Store, seq<seq<Entity>>))
    decreases |passes|
  {
    if |passes| == 0 then (p, st, [])
    else
      var t := PollOnce(p, st, passes[0].0, passes[0].1);
      var rest := PollMany(t.poller, t.store, passes[1..]);
      (rest.0, rest.1, (if t.announced.Some? then [t.announced.value] else []) + rest.2)
  }

  /** Without an acknowledgement in between, a record pending before a run of passes is announced
      by none of them, and stays pending throughout. */
  lemma {:induction false} PendingNeverReannounced(p: Poller, st: Store, passes: seq<(seq<Entity>, nat -> string)>, k: (Kind, int))
    requires k in Keys(p.pending)
    ensures var r := PollMany(p, st, passes);
      k in Keys(r.0.pending) && forall b :: b in r.2 ==> k !in Keys(b)
    decreases |passes|
  {
    if |passes| > 0 {
      var t := PollOnce(p, st, passes[0].0, passes[0].1);
      PendingNotReannounced(p, st, passes[0].0, passes[0].1);
      assert Keys(p.pending) <= Keys(t.poller.pending) by {
        forall x | x in Keys(p.pending) ensures x in Keys(t.poller.pending) {
          var e :| e in p.pending && Key(e) == x;
          assert e in t.poller.pending;
        }
      }
      PendingNeverReannounced(t.poller, t.store, passes[1..], k);
    }
  }

  /** `stopPolling`: the flag is set and the thread is interrupted. The thread's state is no
      input, since the test of it guards an empty statement. */
  function StopPolling(p: Poller): (r: Poller)
    ensures r.stopping && r.interrupted
    ensures r.pending == p.pending && r.terminated == p.terminated
    ensures !Polling(r)
  {
    Poller(p.pending, true, true, p.terminated)
  }

  /** After `stopPolling` no pass announces anything. */
  lemma StoppedPollerIsSilent(p: Poller, st: Store, dirty: seq<Entity>, uuid: nat -> string)
    ensures PollOnce(StopPolling(p), st, dirty, uuid).announced.None?
  {
  }

  // ---------------------------------------------------------------------------------------------
  // Acknowledgement

  /** Every row of table `k` with local id `id` has a DIRTY cell of 0. */
  predicate DirtyCleared(st: Store, k: Kind, id: int) {
    forall j :: 0 <= j < |Rows(st, k)| && Rows(st, k)[j].id == id ==> Cell(Rows(st, k)[j], Dirty) == Some(Integer(0))
  }

  /** The DIRTY value an entity writes is its dirty flag. */
  lemma DirtyValue(e: Entity)
    ensures Dirty in ProviderValues(e) ==> ProviderValues(e)[Dirty] == Integer(e.flags.dirty)
    ensures Dirty in WrittenColumns(KindOf(e)) ==> Dirty in ProviderValues(e)
  {
    if !e.CommunityActivity? {
      EntityValuesKeys(e);
    }
  }

  /** Writing back a clean record keeps every cleared row cleared. */
  lemma UpdateKeepsCleared(st: Store, e: Entity, k: Kind, id: int)
    requires e.id != ENTITY_DEFAULT_ID && e.flags.dirty == 0
    requires DirtyCleared(st, k, id)
    ensures DirtyCleared(Update(st, e).value.0, k, id)
  {
    DirtyValue(e);
  }

  /** Writing back a clean record of a table with a DIRTY column clears its rows. */
  lemma UpdateClears(st: Store, e: Entity)
    requires e.id != ENTITY_DEFAULT_ID && e.flags.dirty == 0
    requires Dirty in WrittenColumns(KindOf(e))
    ensures DirtyCleared(Update(st, e).value.0, KindOf(e), e.id)
  {
    DirtyValue(e);
  }

  /** The loop of `resetEntityDirtyFlag`: each record's dirty flag is set to 0 and the record is
      written back; the first record without a local id throws, leaving the earlier writes. */
  function ClearDirty(st: Store, es: seq<Entity>): (r: (Store, Option<Exception>))
    ensures r.1.None? <==> forall i :: 0 <= i < |es| ==> es[i].id != ENTITY_DEFAULT_ID
    ensures r.1.Some? ==> r.1.value == IllegalStateException
    decreases |es|
  {
    if |es| == 0 then (st, None)
    else match Update(st, WithDirty(es[0], 0))
      case Err(x) => (st, Some(x))
      case Ok((st', _)) => ClearDirty(st', es[1..])
  }

  /** Clearing more records never dirties a cleared row. */
  lemma {:induction false} ClearDirtyKeeps(st: Store, es: seq<Entity>, k: Kind, id: int)
    requires DirtyCleared(st, k, id)
    ensures DirtyCleared(ClearDirty(st, es).0, k, id)
    decreases |es|
  {
    if |es| > 0 {
      var e := WithDirty(es[0], 0);
      if e.id != ENTITY_DEFAULT_ID {
        UpdateKeepsCleared(st, e, k, id);
        ClearDirtyKeeps(Update(st, e).value.0, es[1..], k, id);
      }
    }
  }

  /** When no record lacks a local id, every acknowledged record whose table has a DIRTY column
      ends up with all its rows clean. */
  lemma ClearDirtyClears(st: Store, es: seq<Entity>, i: nat)
    requires ClearDirty(st, es).1.None?
    requires i < |es| && Dirty in WrittenColumns(KindOf(es[i]))
    ensures DirtyCleared(ClearDirty(st, es).0, KindOf(es[i]), es[i].id)
  {
    ClearDirtyClearsAt(st, es, i, KindOf(es[i]), es[i].id);
  }

  /** `ClearDirtyClears` for the record's table `k` and local id `id`. */
  lemma {:induction false} ClearDirtyClearsAt(st: Store, es: seq<Entity>, i: nat, k: Kind, id: int)
    requires ClearDirty(st, es).1.None?
    requires i < |es| && KindOf(es[i]) == k && es[i].id == id && Dirty in WrittenColumns(k)
    ensures DirtyCleared(ClearDirty(st, es).0, k, id)
    decreases |es|
  {
    if i == 0 {
      ClearDirtyClearsHead(st, es);
    } else {
      var st' := ClearDirtyStep(st, es);
      Seqs.TailIndex(es, i);
      ClearDirtyClearsAt(st', es[1..], i - 1, k, id);
    }
  }

  /** The first record's rows are cleared by its own write and stay cleared. */
  lemma ClearDirtyClearsHead(st: Store, es: seq<Entity>)
    requires ClearDirty(st, es).1.None?
    requires 0 < |es| && Dirty in WrittenColumns(KindOf(es[0]))
    ensures DirtyCleared(ClearDirty(st, es).0, KindOf(es[0]), es[0].id)
  {
    var e := WithDirty(es[0], 0);
    var st' := Update(st, e).value.0;
    assert ClearDirty(st, es) == ClearDirty(st', es[1..]);
    UpdateClears(st, e);
    ClearDirtyKeeps(st', es[1..], KindOf(e), e.id);
  }

  /** The first step of the loop, when the first record has a local id: the loop goes on from
      the store its write leaves. */
  lemma ClearDirtyStep(st: Store, es: seq<Entity>) returns (st': Store)
    requires 0 < |es| && es[0].id != ENTITY_DEFAULT_ID
    ensures ClearDirty(st, es) == ClearDirty(st', es[1..])
  {
    st' := Update(st, WithDirty(es[0], 0)).value.0;
  }

  /** The outcome of `resetEntityDirtyFlag`. A failure escapes into the poller thread, whose loop
      then ends. */
  datatype Reset = Reset(poller: Poller, store: Store, failure: Option<Exception>)

  /** `resetEntityDirtyFlag`: the given records leave the pending list (by equality, as
      `removeAll` compares), then each is written back clean. */
  function ResetEntityDirtyFlag(p: Poller, st: Store, es: seq<Entity>): (r: Reset)
    ensures forall i :: 0 <= i < |r.poller.pending| ==> r.poller.pending[i] in p.pending && r.poller.pending[i] !in es
    ensures forall i :: 0 <= i < |p.pending| && p.pending[i] !in es ==> p.pending[i] in r.poller.pending
    ensures Seqs.IsSubsequence(r.poller.pending, p.pending)
    ensures r.failure.None? <==> forall i :: 0 <= i < |es| ==> es[i].id != ENTITY_DEFAULT_ID
    ensures r.failure.Some? ==> r.failure.value == IllegalStateException && r.poller.terminated
    ensures r.failure.None? ==> r.poller.terminated == p.terminated
    ensures r.poller.stopping == p.stopping && r.poller.interrupted == p.interrupted
  {
    var pending := Seqs.Filter((e: Entity) => e !in es, p.pending);
    var (st', failure) := ClearDirty(st, es);
    Reset(Poller(pending, p.stopping, p.interrupted, p.terminated || failure.Some?), st', failure)
  }

  /** Once a batch is acknowledged, its records may be announced again. */
  lemma AcknowledgedNoLongerPending(p: Poller, st: Store, es: seq<Entity>, e: Entity)
    requires e in es
    ensures e !in ResetEntityDirtyFlag(p, st, es).poller.pending
  {
  }
}
