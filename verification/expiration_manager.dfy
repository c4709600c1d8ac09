/** The expiration manager: a reaper switched on at start when configured, a
    sweep over the data container that removes expired entries, the two
    per-key expiry rules, and the set of keys with a write in flight. Every
    call is one atomic step on an explicit state record; the clock readings,
    the entries' expiry test and the persistence manager and notifier are
    parameters or recorded effects. */
module ExpirationManager {
  import opened Wrappers

  datatype Config = Config(reaperEnabled: bool, wakeUpInterval: int)

  /** The reaper task: never scheduled, scheduled with a fixed delay, or
      cancelled. */
  datatype Task = NoTask | Scheduled(delay: int) | Cancelled(delay: int)

  /** An entry object of the data container. `id` stands for its identity:
      two slots hold the same object exactly when the records are equal. */
  datatype Slot<K, V, M> = Slot(id: nat, key: K, value: V, metadata: M, canExpire: bool)

  /** What the manager asks its collaborators to do, in order. */
  datatype Effect<K, V, M> =
    | DeleteFromAllStores(key: K)
    | NotifyExpired(key: K, value: Option<V>, metadata: Option<M>)
    | PurgeExpired

  datatype Manager<K, V, M> = Manager(
    enabled: bool,
    task: Task,
    container: map<K, Slot<K, V, M>>,
    expiring: set<K>)

  /** The collaborators: the entries' expiry test at a time, and whether a
      cache notifier is present. */
  datatype Env<!K, !V, !M> = Env(isExpired: (Slot<K, V, M>, int) -> bool, hasNotifier: bool)

  // ---------------------------------------------------------------------
  // Lifecycle

  /** `start`: enabled only when the reaper is enabled and the wake-up
      interval is positive; only then is the task scheduled. */
  function Start<K, V, M>(m: Manager<K, V, M>, cfg: Config): (r: Manager<K, V, M>)
    ensures r.enabled <==> cfg.reaperEnabled && cfg.wakeUpInterval > 0
    ensures r.task != m.task ==> r.enabled
    ensures r.container == m.container && r.expiring == m.expiring
  {
    if !cfg.reaperEnabled then m.(enabled := false)
    else if cfg.wakeUpInterval <= 0 then m.(enabled := false)
    else m.(enabled := true, task := Scheduled(cfg.wakeUpInterval))
  }

  /** `stop`: cancels the task if there is one. */
  function Stop<K, V, M>(m: Manager<K, V, M>): (r: Manager<K, V, M>)
    ensures !r.task.Scheduled?
    ensures m.task.Scheduled? ==> r.task == Cancelled(m.task.delay)
    ensures !m.task.Scheduled? ==> r == m
    ensures r.(task := m.task) == m
  {
    match m.task
    case Scheduled(d) => m.(task := Cancelled(d))
    case _ => m
  }

  function IsEnabled<K, V, M>(m: Manager<K, V, M>): bool {
    m.enabled
  }

  /** From a fresh manager, `start` schedules a task exactly when the manager
      ends up enabled, with the configured interval as its delay; a later
      `stop` cancels that task and leaves a never-started one alone. */
  lemma StartStopLifecycle<K, V, M>(m: Manager<K, V, M>, cfg: Config)
    requires m.task == NoTask
    ensures Start(m, cfg).task.Scheduled? <==> IsEnabled(Start(m, cfg))
    ensures IsEnabled(Start(m, cfg)) ==> Start(m, cfg).task.delay == cfg.wakeUpInterval > 0
    ensures Stop(Start(m, cfg)).task == (if IsEnabled(Start(m, cfg)) then Cancelled(cfg.wakeUpInterval) else NoTask)
  {
  }

  // ---------------------------------------------------------------------
  // The two per-key expiry rules

  /** `handleInMemoryExpiration`: the slot is emptied, the key deleted from
      all stores and one expiry notification emitted (with the entry's value
      and metadata) only if the slot still holds this very entry. */
  function HandleInMemoryExpiration<K, V(==), M(==)>(env: Env<K, V, M>, m: Manager<K, V, M>, entry: Slot<K, V, M>)
    : (r: (Manager<K, V, M>, seq<Effect<K, V, M>>))
    ensures r.0.(container := m.container) == m
    ensures r.0.container - {entry.key} == m.container - {entry.key}
    ensures entry.key in r.0.container ==> entry.key in m.container && r.0.container[entry.key] == m.container[entry.key]
    ensures entry.key !in r.0.container <==> entry.key !in m.container || m.container[entry.key] == entry
    ensures r.1 != [] <==> entry.key in m.container && m.container[entry.key] == entry
    ensures r.1 != [] ==> r.1[0] == DeleteFromAllStores(entry.key)
    ensures r.1 != [] && env.hasNotifier ==> r.1 == [DeleteFromAllStores(entry.key), NotifyExpired(entry.key, Some(entry.value), Some(entry.metadata))]
    ensures r.1 != [] && !env.hasNotifier ==> |r.1| == 1
  {
    var k := entry.key;
    if k in m.container && m.container[k] == entry then
      var notify := if env.hasNotifier then [NotifyExpired(k, Some(entry.value), Some(entry.metadata))] else [];
      (m.(container := m.container - {k}), [DeleteFromAllStores(k)] + notify)
    else (m, [])
  }

  /** Expiring the same entry twice does nothing the second time: the slot
      no longer holds it. */
  lemma InMemoryExpirationIdempotent<K, V, M>(env: Env<K, V, M>, m: Manager<K, V, M>, entry: Slot<K, V, M>)
    ensures var (m1, _) := HandleInMemoryExpiration(env, m, entry);
            HandleInMemoryExpiration(env, m1, entry) == (m1, [])
  {
  }

  /** On a slot holding an expirable entry that is expired, the two rules
      agree: same container afterwards, same deletion, same notification. */
  lemma InMemoryAgreesWithInStore<K, V, M>(env: Env<K, V, M>, m: Manager<K, V, M>, entry: Slot<K, V, M>, now: int)
    requires entry.key in m.container && m.container[entry.key] == entry
    requires entry.canExpire && env.isExpired(entry, now)
    ensures HandleInMemoryExpiration(env, m, entry) == HandleInStoreExpiration(env, m, entry.key, now)
  {
  }

  /** `handleInStoreExpiration`: removes and notifies when the slot is empty
      or holds an expirable entry that is expired at `now` (a reading of the
      monotonic clock); value and metadata are null for an empty slot. */
  function HandleInStoreExpiration<K, V, M>(env: Env<K, V, M>, m: Manager<K, V, M>, key: K, now: int)
    : (r: (Manager<K, V, M>, seq<Effect<K, V, M>>))
  {
    var prior := if key in m.container then Some(m.container[key]) else None;
    if prior.None? || (prior.value.canExpire && env.isExpired(prior.value, now)) then
      var notify :=
        if !env.hasNotifier then []
        else if prior.Some? then [NotifyExpired(key, Some(prior.value.value), Some(prior.value.metadata))]
        else [NotifyExpired(key, None, None)];
      (m.(container := m.container - {key}), [DeleteFromAllStores(key)] + notify)
    else (m, [])
  }

  /** Whether the in-store rule fires for `key` at `now`. */
  predicate InStoreExpires<K, V, M>(env: Env<K, V, M>, m: Manager<K, V, M>, key: K, now: int) {
    key !in m.container || (m.container[key].canExpire && env.isExpired(m.container[key], now))
  }

  /** The in-store rule removes the key exactly when it fires, always leaves
      the other keys and the lease set alone, and reports the slot's former
      content (nulls for an empty slot). */
  lemma InStoreExpirationOutcome<K, V, M>(env: Env<K, V, M>, m: Manager<K, V, M>, key: K, now: int)
    ensures var r := HandleInStoreExpiration(env, m, key, now);
            && r.0.container - {key} == m.container - {key}
            && r.0.(container := m.container) == m
            && (key in r.0.container <==> !InStoreExpires(env, m, key, now))
            && (!InStoreExpires(env, m, key, now) ==> r.0 == m && r.1 == [])
            && (InStoreExpires(env, m, key, now) ==> |r.1| >= 1 && r.1[0] == DeleteFromAllStores(key))
            && (InStoreExpires(env, m, key, now) && env.hasNotifier ==>
                  |r.1| == 2 &&
                  r.1[1] == if key in m.container
                            then NotifyExpired(key, Some(m.container[key].value), Some(m.container[key].metadata))
                            else NotifyExpired(key, None, None))
            && (InStoreExpires(env, m, key, now) && !env.hasNotifier ==> |r.1| == 1)
  {
  }

  /** An entry that cannot expire is never removed by the in-store rule. */
  lemma InStoreKeepsImmortal<K, V, M>(env: Env<K, V, M>, m: Manager<K, V, M>, key: K, now: int)
    requires key in m.container && !m.container[key].canExpire
    ensures HandleInStoreExpiration(env, m, key, now) == (m, [])
  {
  }

  // ---------------------------------------------------------------------
  // The sweep

  /** The slot of `k` after the sweep has handled `entries`: emptied if one
      of them was the very entry held there and expired. */
  ghost predicate SweptAway<K, V, M>(env: Env<K, V, M>, c: map<K, Slot<K, V, M>>, entries: seq<Slot<K, V, M>>, k: K, now: int) {
    k in c && exists i :: 0 <= i < |entries| && entries[i].key == k && entries[i] == c[k] && env.isExpired(entries[i], now)
  }

  /** The data-container sweep: every entry the iterator yields that is
      expired at `now` goes to the in-memory rule. */
  method Sweep<K, V(==), M(==)>(env: Env<K, V, M>, m: Manager<K, V, M>, entries: seq<Slot<K, V, M>>, now: int)
    returns (m': Manager<K, V, M>, effects: seq<Effect<K, V, M>>)
    ensures m'.(container := m.container) == m
    ensures m'.container.Keys <= m.container.Keys
    ensures forall k :: k in m'.container ==> m'.container[k] == m.container[k]
    ensures forall k :: k in m.container ==> (k !in m'.container <==> SweptAway(env, m.container, entries, k, now))
    ensures forall k :: k in m.container && k !in m'.container ==> DeleteFromAllStores(k) in effects
    ensures PurgeExpired !in effects
    ensures forall j :: 0 <= j < |effects| && effects[j].DeleteFromAllStores? ==>
              effects[j].key in m.container && effects[j].key !in m'.container
  {
    m' := m;
    effects := [];
    var i := 0;
    while i < |entries|
      invariant 0 <= i <= |entries|
      invariant m'.(container := m.container) == m
      invariant m'.container.Keys <= m.container.Keys
      invariant forall k :: k in m'.container ==> m'.container[k] == m.container[k]
      invariant forall k :: k in m.container ==> (k !in m'.container <==> SweptAway(env, m.container, entries[..i], k, now))
      invariant forall k :: k in m.container && k !in m'.container ==> DeleteFromAllStores(k) in effects
      invariant PurgeExpired !in effects
      invariant forall j :: 0 <= j < |effects| && effects[j].DeleteFromAllStores? ==>
                  effects[j].key in m.container && effects[j].key !in m'.container
    {
      var e := entries[i];
      ghost var before := m';
      if env.isExpired(e, now) {
        var step := HandleInMemoryExpiration(env, m', e);
        m' := step.0;
        effects := effects + step.1;
      }
      SweepStep(env, m.container, before.container, m'.container, entries, i, now);
      i := i + 1;
    }
    assert entries[..i] == entries;
  }

  /** Where an exception cuts the sweep short (it is caught and logged):
      before the entry at position `at` is handled, or inside the in-memory
      rule for it, after `deleteFromAllStores` and before the notification
      and the removal from the container (a throwing listener, say). */
  datatype Fault = ThrowBefore(at: nat) | ThrowAfterDelete(at: nat)

  /** The entries the sweep gets through in full. */
  function Swept<K, V, M>(snapshot: seq<Slot<K, V, M>>, interruptedBefore: bool, fault: Option<Fault>): (s: seq<Slot<K, V, M>>)
    ensures s <= snapshot
    ensures interruptedBefore ==> s == []
    ensures !interruptedBefore && (fault.None? || fault.value.at >= |snapshot|) ==> s == snapshot
  {
    if interruptedBefore then []
    else if fault.Some? && fault.value.at < |snapshot| then snapshot[..fault.value.at]
    else snapshot
  }

  /** The entry whose handling throws after its store deletion, if any. */
  function CutAfterDelete<K, V, M>(snapshot: seq<Slot<K, V, M>>, interruptedBefore: bool, fault: Option<Fault>): (e: Option<Slot<K, V, M>>)
    ensures e.Some? ==> !interruptedBefore && fault.Some? && fault.value.ThrowAfterDelete?
                        && fault.value.at < |snapshot| && e.value == snapshot[fault.value.at]
  {
    if !interruptedBefore && fault.Some? && fault.value.ThrowAfterDelete? && fault.value.at < |snapshot|
    then Some(snapshot[fault.value.at])
    else None
  }

  /** `processExpiration`. The iterator's entries are `snapshot`; `fault` is
      where an exception ends the sweep; the two flags are the thread's
      interrupt status at the two checks. The store purge is requested last,
      whenever the thread is not interrupted at the second check, even after
      an exception. */
  method ProcessExpiration<K, V(==), M(==)>(env: Env<K, V, M>, m: Manager<K, V, M>, snapshot: seq<Slot<K, V, M>>, now: int,
                                    interruptedBefore: bool, fault: Option<Fault>, interruptedAfter: bool)
    returns (m': Manager<K, V, M>, effects: seq<Effect<K, V, M>>)
    ensures m'.(container := m.container) == m
    ensures m'.container.Keys <= m.container.Keys
    ensures forall k :: k in m'.container ==> m'.container[k] == m.container[k]
    ensures forall k :: k in m.container && !env.isExpired(m.container[k], now) ==> k in m'.container
    ensures forall k :: k in m.container ==>
              (k !in m'.container <==> SweptAway(env, m.container, Swept(snapshot, interruptedBefore, fault), k, now))
    ensures forall k :: k in m.container && k !in m'.container ==> DeleteFromAllStores(k) in effects
    ensures PurgeExpired in effects <==> !interruptedAfter
    ensures !interruptedAfter ==> effects[|effects| - 1] == PurgeExpired
    ensures forall i :: 0 <= i < |effects| && effects[i].DeleteFromAllStores? ==> effects[i].key in m.container
    ensures forall i :: 0 <= i < |effects| && effects[i].DeleteFromAllStores? && effects[i].key in m'.container ==>
              var cut := CutAfterDelete(snapshot, interruptedBefore, fault);
              cut.Some? && effects[i].key == cut.value.key && m'.container[cut.value.key] == cut.value
    ensures var cut := CutAfterDelete(snapshot, interruptedBefore, fault);
            cut.Some? && env.isExpired(cut.value, now) && cut.value.key in m'.container && m'.container[cut.value.key] == cut.value ==>
              |effects| >= (if interruptedAfter then 1 else 2)
              && effects[|effects| - (if interruptedAfter then 1 else 2)] == DeleteFromAllStores(cut.value.key)
  {
    m', effects := m, [];
    if !interruptedBefore {
      m', effects := Sweep(env, m, Swept(snapshot, interruptedBefore, fault), now);
      var cut := CutAfterDelete(snapshot, interruptedBefore, fault);
      if cut.Some? && env.isExpired(cut.value, now) && cut.value.key in m'.container && m'.container[cut.value.key] == cut.value {
        effects := effects + [DeleteFromAllStores(cut.value.key)];
      }
    }
    if !interruptedAfter {
      effects := effects + [PurgeExpired];
    }
  }

  /** One step of the sweep keeps the "removed exactly the swept-away keys"
      invariant. */
  lemma SweepStep<K, V, M>(env: Env<K, V, M>, c: map<K, Slot<K, V, M>>, before: map<K, Slot<K, V, M>>,
                           after: map<K, Slot<K, V, M>>, snapshot: seq<Slot<K, V, M>>, i: nat, now: int)
    requires i < |snapshot|
    requires before.Keys <= c.Keys
    requires forall k :: k in before ==> before[k] == c[k]
    requires forall k :: k in c ==> (k !in before <==> SweptAway(env, c, snapshot[..i], k, now))
    requires var e := snapshot[i];
             if env.isExpired(e, now) && e.key in before && before[e.key] == e then after == before - {e.key}
             else after == before
    ensures forall k :: k in c ==> (k !in after <==> SweptAway(env, c, snapshot[..i + 1], k, now))
  {
    var e := snapshot[i];
    var p := snapshot[..i + 1];
    assert p[i] == e;
    forall k | k in c
      ensures k !in after <==> SweptAway(env, c, p, k, now)
    {
      if SweptAway(env, c, snapshot[..i], k, now) {
        var j :| 0 <= j < i && snapshot[..i][j].key == k && snapshot[..i][j] == c[k] && env.isExpired(snapshot[..i][j], now);
        assert p[j] == snapshot[..i][j];
      } else if SweptAway(env, c, p, k, now) {
        var j :| 0 <= j < i + 1 && p[j].key == k && p[j] == c[k] && env.isExpired(p[j], now);
      }
    }
  }

  // ---------------------------------------------------------------------
  // Write leases

  /** `registerWriteIncoming`: the key joins the lease set; nothing else
      changes. */
  function RegisterWriteIncoming<K, V, M>(m: Manager<K, V, M>, key: K): (r: Manager<K, V, M>)
    ensures key in r.expiring
    ensures r.expiring - {key} == m.expiring - {key}
    ensures r.(expiring := m.expiring) == m
  {
    m.(expiring := m.expiring + {key})
  }

  /** `unregisterWrite`: the key leaves the lease set; nothing else changes. */
  function UnregisterWrite<K, V, M>(m: Manager<K, V, M>, key: K): (r: Manager<K, V, M>)
    ensures key !in r.expiring
    ensures r.expiring + {key} == m.expiring + {key}
    ensures r.(expiring := m.expiring) == m
  {
    m.(expiring := m.expiring - {key})
  }

  /** Both lease operations are idempotent, and unregistering undoes a
      registration of a key that held no lease. */
  lemma LeasesIdempotent<K, V, M>(m: Manager<K, V, M>, key: K)
    ensures RegisterWriteIncoming(RegisterWriteIncoming(m, key), key) == RegisterWriteIncoming(m, key)
    ensures UnregisterWrite(UnregisterWrite(m, key), key) == UnregisterWrite(m, key)
    ensures key !in m.expiring ==> UnregisterWrite(RegisterWriteIncoming(m, key), key) == m
  {
  }
}
