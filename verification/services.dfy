/** The two Android services that host the sync workers: one keeps a sync server per connection
    type, the other a sync client per connection type. Both keep the same books: a map of
    workers, the static map of types marked running, the broadcast receivers registered per type,
    and whether the service has asked to stop itself. A worker is opaque here; what the model
    records is which workers were started and which were told to stop. */
module SyncServices {
  import opened Wrappers
  import Peers

  type ConnectionType = Peers.ConnectionType

  /** The books of a service. `running` stands for the static `mSync...Running` map (its values
      are always 1, so only the keys matter); `started` and `stopped` are the workers that were
      started and told to stop, in order. */
  datatype Registry<W> = Registry(workers: map<ConnectionType, W>, running: set<ConnectionType>,
                                  receivers: set<ConnectionType>, started: seq<W>, stopped: seq<W>,
                                  selfStopped: bool)

  /** A freshly created service. */
  function NewRegistry<W>(): (r: Registry<W>)
    ensures r.workers == map[] && r.running == {} && r.receivers == {} && !r.selfStopped
  {
    Registry(map[], {}, {}, [], [], false)
  }

  /** `startSyncServer` / `startSyncClient`: the worker is started, recorded under its type, the
      type is marked running and the type's broadcast receiver is registered. */
  function StartWorker<W>(r: Registry<W>, t: ConnectionType, w: W): (r': Registry<W>)
    ensures r'.workers == r.workers[t := w] && r'.running == r.running + {t} && r'.receivers == r.receivers + {t}
    ensures r'.started == r.started + [w] && r'.stopped == r.stopped && r'.selfStopped == r.selfStopped
  {
    Registry(r.workers[t := w], r.running + {t}, r.receivers + {t}, r.started + [w], r.stopped, r.selfStopped)
  }

  /** `onStartCommand`: an intent names the connection type (through the listener the server
      intent carries, or the connection the client intent carries) and the worker built from it.
      A worker is started only when none is recorded for that type; a null intent does nothing. */
  function OnStartCommand<W>(r: Registry<W>, intent: Option<(ConnectionType, W)>): (r': Registry<W>)
    ensures intent.None? ==> r' == r
    ensures intent.Some? && intent.value.0 in r.workers ==> r' == r
    ensures intent.Some? && intent.value.0 !in r.workers ==>
              r'.workers == r.workers[intent.value.0 := intent.value.1] && intent.value.0 in r'.running &&
              r'.started == r.started + [intent.value.1]
  {
    match intent
    case None => r
    case Some((t, w)) => if t in r.workers then r else StartWorker(r, t, w)
  }

  /** `stopSyncServer` / `stopSyncClient`: the recorded worker, if any, is told to stop; the type
      stops counting as running and its receiver is unregistered. The worker stays in the map. */
  function StopWorker<W>(r: Registry<W>, t: ConnectionType): (r': Registry<W>)
    ensures r'.workers == r.workers && r'.started == r.started && r'.selfStopped == r.selfStopped
    ensures r'.running == r.running - {t} && r'.receivers == r.receivers - {t}
    ensures r'.stopped == r.stopped + (if t in r.workers then [r.workers[t]] else [])
  {
    Registry(r.workers, r.running - {t}, r.receivers - {t}, r.started,
             r.stopped + (if t in r.workers then [r.workers[t]] else []), r.selfStopped)
  }

  /** `stopAllSyncServers` / `stopAllSyncClients`: every recorded worker is stopped and removed,
      in the map's iteration order, which the model leaves open. */
  method StopAllWorkers<W>(r: Registry<W>) returns (r': Registry<W>)
    ensures r'.workers == map[]
    ensures r'.running == r.running - r.workers.Keys && r'.receivers == r.receivers - r.workers.Keys
    ensures |r'.stopped| >= |r.stopped| && r'.stopped[..|r.stopped|] == r.stopped
    ensures forall t :: t in r.workers ==> r.workers[t] in r'.stopped[|r.stopped|..]
    ensures r'.started == r.started && r'.selfStopped == r.selfStopped
  {
    var left := r.workers.Keys;
    ghost var done: set<ConnectionType> := {};
    ghost var log: seq<W> := [];
    var reg := r;
    while left != {}
      invariant left + done == r.workers.Keys && left !! done
      invariant reg.workers == r.workers && reg.started == r.started && reg.selfStopped == r.selfStopped
      invariant reg.running == r.running - done && reg.receivers == r.receivers - done
      invariant reg.stopped == r.stopped + log
      invariant forall t :: t in done ==> r.workers[t] in log
      decreases left
    {
      var t :| t in left;
      reg := StopWorker(reg, t);
      log := log + [r.workers[t]];
      left := left - {t};
      done := done + {t};
    }
    r' := reg.(workers := map[]);
    assert r'.stopped[|r.stopped|..] == log;
  }

  /** `stopSync(t)`: the type's worker is stopped, and the service stops itself only when its
      worker map is empty afterwards. */
  function StopSync<W>(r: Registry<W>, t: ConnectionType): (r': Registry<W>)
    ensures r'.workers == r.workers && t !in r'.running && t !in r'.receivers
    ensures r'.selfStopped <==> r.selfStopped || r.workers == map[]
  {
    var s := StopWorker(r, t);
    s.(selfStopped := s.selfStopped || s.workers == map[])
  }

  /** `stopAllSync`: every worker is stopped and removed, and the service stops itself. */
  method StopAllSync<W>(r: Registry<W>) returns (r': Registry<W>)
    ensures r'.workers == map[] && r'.selfStopped && r'.started == r.started
    ensures r'.running == r.running - r.workers.Keys
    ensures forall t :: t in r.workers ==> r.workers[t] in r'.stopped
  {
    r' := StopAllWorkers(r);
    r' := r'.(selfStopped := true);
  }

  /** `isSyncServerRunning` / `isSyncClientRunning`. */
  predicate IsRunning<W>(r: Registry<W>, t: ConnectionType) {
    t in r.running
  }

  /** A started worker counts as running, and stopping its type ends that. */
  lemma StartThenStop<W>(r: Registry<W>, t: ConnectionType, w: W)
    requires t !in r.workers
    ensures IsRunning(OnStartCommand(r, Some((t, w))), t)
    ensures !IsRunning(StopSync(OnStartCommand(r, Some((t, w))), t), t)
  {
  }

  /** Because stopping a type leaves its worker in the map, stopping the only running worker does
      not stop the service, and a later start intent for that type is ignored: the type stays not
      running until every worker is stopped at once. */
  lemma StoppedTypeCannotRestart<W>(r: Registry<W>, t: ConnectionType, w: W)
    requires t in r.workers && !r.selfStopped
    ensures !StopSync(r, t).selfStopped
    ensures OnStartCommand(StopSync(r, t), Some((t, w))) == StopSync(r, t)
    ensures !IsRunning(OnStartCommand(StopSync(r, t), Some((t, w))), t)
  {
  }

  /** After everything is stopped, a start intent starts a worker again. */
  method RestartAfterStopAll<W>(r: Registry<W>, t: ConnectionType, w: W) returns (r': Registry<W>)
    ensures IsRunning(r', t) && t in r'.workers && r'.workers[t] == w
    ensures |r'.started| > 0 && r'.started[|r'.started| - 1] == w
  {
    r' := StopAllSync(r);
    r' := OnStartCommand(r', Some((t, w)));
  }
}
