/** The server's handshake lock: two counters that let any number of handshakes, or any number of
    updates, hold the lock at once, but never a handshake and an update together. A thread that
    would wait in `lock` is a step that cannot be taken yet; `TryLock` answers `None` for it. */
module HandshakeLock {
  import opened Wrappers

  datatype LockType = Handshake | Update

  /** The two counters. Java ints; neither is ever decremented below 0. */
  datatype Lock = Lock(handshakes: nat, updates: nat)

  const Unlocked := Lock(0, 0)

  function Other(t: LockType): LockType {
    if t == Handshake then Update else Handshake
  }

  /** The counter of the given kind. */
  function Count(l: Lock, t: LockType): nat {
    if t == Handshake then l.handshakes else l.updates
  }

  /** Mutual exclusion: handshakes and updates never hold the lock at the same time. */
  predicate Inv(l: Lock) {
    l.handshakes == 0 || l.updates == 0
  }

  /** `lock(t)`: the caller waits while the other kind holds the lock; once it may proceed, its own
      kind's count goes up by one and the other's is untouched. */
  function TryLock(l: Lock, t: LockType): (r: Option<Lock>)
    ensures r.Some? <==> Count(l, Other(t)) == 0
    ensures r.Some? ==> Count(r.value, t) == Count(l, t) + 1 && Count(r.value, Other(t)) == 0
  {
    match t
    case Handshake => if l.updates > 0 then None else Some(Lock(l.handshakes + 1, l.updates))
    case Update => if l.handshakes > 0 then None else Some(Lock(l.handshakes, l.updates + 1))
  }

  /** `unlock(t)`: the state after the release and whether waiters are woken. */
  function Unlock(l: Lock, t: LockType): (r: (Lock, bool))
    ensures Count(l, t) > 0 ==> Count(r.0, t) == Count(l, t) - 1
    ensures Count(l, t) == 0 ==> r.0 == l
    ensures Count(r.0, Other(t)) == Count(l, Other(t))
    ensures r.1 <==> r.0 == Unlocked
  {
    var l' := match t
      case Handshake => if l.handshakes > 0 then Lock(l.handshakes - 1, l.updates) else l
      case Update => if l.updates > 0 then Lock(l.handshakes, l.updates - 1) else l;
    (l', l'.handshakes == 0 && l'.updates == 0)
  }

  /** Acquiring keeps mutual exclusion. */
  lemma LockKeepsInv(l: Lock, t: LockType)
    requires Inv(l) && TryLock(l, t).Some?
    ensures Inv(TryLock(l, t).value)
  {
  }

  /** Releasing keeps mutual exclusion. */
  lemma UnlockKeepsInv(l: Lock, t: LockType)
    requires Inv(l)
    ensures Inv(Unlock(l, t).0)
  {
  }

  /** While a kind holds the lock, another caller of that same kind never waits. */
  lemma SameKindNeverWaits(l: Lock, t: LockType)
    requires Inv(l) && Count(l, t) > 0
    ensures TryLock(l, t).Some?
  {
  }

  /** Releasing what was just acquired restores the counters. */
  lemma UnlockUndoesLock(l: Lock, t: LockType)
    requires TryLock(l, t).Some?
    ensures Unlock(TryLock(l, t).value, t).0 == l
  {
  }

  /** `n` acquisitions of one kind in a row. */
  function LockTimes(l: Lock, t: LockType, n: nat): (r: Option<Lock>)
    decreases n
  {
    if n == 0 then Some(l)
    else match TryLock(l, t)
      case None => None
      case Some(l') => LockTimes(l', t, n - 1)
  }

  /** From a free lock, any number of holders of one kind get in without waiting, and the count
      is then exactly the number of holders. */
  lemma {:induction false} ManyHoldersOfOneKind(l: Lock, t: LockType, n: nat)
    requires Count(l, Other(t)) == 0
    ensures LockTimes(l, t, n).Some?
    ensures Count(LockTimes(l, t, n).value, t) == Count(l, t) + n
    ensures Count(LockTimes(l, t, n).value, Other(t)) == 0
    decreases n
  {
    if n > 0 {
      var l' := TryLock(l, t).value;
      ManyHoldersOfOneKind(l', t, n - 1);
    }
  }

  /** An acquisition that is never released keeps the other kind out for good: however many
      releases of the other kind follow, it still waits. */
  lemma {:induction false} UnreleasedLockExcludesOther(l: Lock, t: LockType, n: nat)
    requires Count(l, t) > 0
    ensures TryLock(UnlockTimes(l, Other(t), n), Other(t)).None?
    decreases n
  {
    if n > 0 {
      UnreleasedLockExcludesOther(Unlock(l, Other(t)).0, t, n - 1);
    }
  }

  /** `n` releases of one kind in a row. */
  function UnlockTimes(l: Lock, t: LockType, n: nat): (r: Lock)
    decreases n
  {
    if n == 0 then l else UnlockTimes(Unlock(l, t).0, t, n - 1)
  }

  /** Releases of one kind bring its count down by one each, stopping at 0, and leave the other
      kind's count alone. */
  lemma {:induction false} UnlockTimesCount(l: Lock, t: LockType, n: nat)
    ensures Count(UnlockTimes(l, t, n), t) == if Count(l, t) >= n then Count(l, t) - n else 0
    ensures Count(UnlockTimes(l, t, n), Other(t)) == Count(l, Other(t))
    decreases n
  {
    if n > 0 {
      UnlockTimesCount(Unlock(l, t).0, t, n - 1);
    }
  }
}
