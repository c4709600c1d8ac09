/** The binary JDBC store: every key is filed under a bucket id derived from
    its hash, and the table holds one row per bucket id whose payload is the
    bucket's key-to-entry map. Each public operation is modelled as one atomic
    step on that table (the striped bucket locks make it so in the source). */
module BucketStore {
  import opened Wrappers

  /** A bucket id: the masked 32-bit hash (the row key of the table). */
  datatype BucketId = BucketId(bits: bv32)

  /** The mask that drops the ten low bits of a key's hash. */
  const BUCKET_MASK: bv32 := 0xFFFF_FC00

  type Bucket<K, E> = map<K, E>
  type Table<K, E> = map<BucketId, Bucket<K, E>>

  /** The collaborators the store consults: the key equivalence's hash, and
      the entry-metadata expiry test at a wall-clock time. */
  datatype Env<!K, !E> = Env(hash: K -> bv32, isExpired: (E, int) -> bool)

  datatype StoreError = UnexpectedRowCount(rows: nat)

  /** `getBuckedId`: the hash with its ten low bits cleared. */
  function BucketIdOf(hash: bv32): BucketId {
    BucketId(hash & BUCKET_MASK)
  }

  /** The ten low bits of a bucket id are clear, and the bits above are the
      hash's own. */
  lemma BucketIdBits(hash: bv32)
    ensures BucketIdOf(hash).bits & 0x3FF == 0
    ensures BucketIdOf(hash).bits >> 10 == hash >> 10
  {
    MaskIsShift(hash);
    ShiftBack(hash);
  }

  function BucketOfKey<K, E>(env: Env<K, E>, key: K): BucketId {
    BucketIdOf(env.hash(key))
  }

  /** Masking twice is masking once; two hashes share a bucket exactly when
      they agree above bit 10. */
  lemma BucketIdIdempotent(h: bv32)
    ensures BucketIdOf(BucketIdOf(h).bits) == BucketIdOf(h)
  {
    MaskTwice(h);
  }

  lemma MaskTwice(h: bv32)
    ensures (h & BUCKET_MASK) & BUCKET_MASK == h & BUCKET_MASK
  {
  }

  lemma MaskIsShift(h: bv32)
    ensures h & BUCKET_MASK == (h >> 10) << 10
  {
  }

  lemma MaskSharing(h1: bv32, h2: bv32)
    ensures h1 & BUCKET_MASK == h2 & BUCKET_MASK <==> h1 >> 10 == h2 >> 10
  {
    MaskIsShift(h1);
    MaskIsShift(h2);
    if h1 & BUCKET_MASK == h2 & BUCKET_MASK {
      ShiftBack(h1);
      ShiftBack(h2);
    }
  }

  lemma ShiftBack(h: bv32)
    ensures ((h >> 10) << 10) >> 10 == h >> 10
  {
  }

  lemma BucketIdSharing(h1: bv32, h2: bv32)
    ensures BucketIdOf(h1) == BucketIdOf(h2) <==> h1 >> 10 == h2 >> 10
  {
    MaskSharing(h1, h2);
  }

  /** Every key sits in the row of its own bucket id. */
  ghost predicate WellFormed<K, E>(env: Env<K, E>, t: Table<K, E>) {
    forall id, k :: id in t && k in t[id] ==> BucketOfKey(env, k) == id
  }

  // ---------------------------------------------------------------------
  // Row-level operations with the affected-row checks

  /** Rows an INSERT for `id` would add: none when the id is already taken. */
  function InsertedRows<K, E>(t: Table<K, E>, id: BucketId): nat {
    if id in t then 0 else 1
  }

  /** Rows an UPDATE of `id` would touch. */
  function UpdatedRows<K, E>(t: Table<K, E>, id: BucketId): nat {
    if id in t then 1 else 0
  }

  /** `insertBucket`: anything but exactly one inserted row is an error. */
  function InsertBucket<K, E>(t: Table<K, E>, id: BucketId, b: Bucket<K, E>): (r: Result<Table<K, E>, StoreError>)
    ensures r.Success? <==> id !in t
    ensures r.Success? ==> r.value == t[id := b]
  {
    var rows := InsertedRows(t, id);
    if rows != 1 then Failure(UnexpectedRowCount(rows)) else Success(t[id := b])
  }

  /** `updateBucket`: anything but exactly one updated row is an error. */
  function UpdateBucket<K, E>(t: Table<K, E>, id: BucketId, b: Bucket<K, E>): (r: Result<Table<K, E>, StoreError>)
    ensures r.Success? <==> id in t
    ensures r.Success? ==> r.value == t[id := b]
  {
    var rows := UpdatedRows(t, id);
    if rows != 1 then Failure(UnexpectedRowCount(rows)) else Success(t[id := b])
  }

  // ---------------------------------------------------------------------
  // Public operations

  /** `storeInBucket`: add to the existing row, or create a row holding just
      this entry. */
  function StoreInBucket<K, E>(env: Env<K, E>, t: Table<K, E>, key: K, e: E): (r: Result<Table<K, E>, StoreError>)
    ensures r.Success?
    ensures BucketOfKey(env, key) in r.value
    ensures BucketOfKey(env, key) !in t ==> r.value[BucketOfKey(env, key)] == map[key := e]
    ensures BucketOfKey(env, key) in t ==> r.value[BucketOfKey(env, key)] == t[BucketOfKey(env, key)][key := e]
    ensures forall id :: id != BucketOfKey(env, key) ==> (id in r.value <==> id in t)
    ensures forall id :: id in t && id != BucketOfKey(env, key) ==> r.value[id] == t[id]
  {
    var id := BucketOfKey(env, key);
    if id in t then UpdateBucket(t, id, t[id][key := e])
    else InsertBucket(t, id, map[key := e])
  }

  /** `removeKeyFromBucket`, i.e. `delete`: false when the row or the key is
      missing; otherwise the key leaves the row, which stays even if empty. */
  function Delete<K, E>(env: Env<K, E>, t: Table<K, E>, key: K): (r: Result<(Table<K, E>, bool), StoreError>)
    ensures r.Success?
    ensures r.value.1 <==> BucketOfKey(env, key) in t && key in t[BucketOfKey(env, key)]
    ensures !r.value.1 ==> r.value.0 == t
    ensures r.value.1 ==> r.value.0 == t[BucketOfKey(env, key) := t[BucketOfKey(env, key)] - {key}]
  {
    var id := BucketOfKey(env, key);
    if id !in t then Success((t, false))
    else
      var removed := key in t[id];
      if removed then
        match UpdateBucket(t, id, t[id] - {key})
        case Success(t') => Success((t', true))
        case Failure(err) => Failure(err)
      else Success((t, false))
  }

  /** `write`: an entry already expired at `now` turns into `delete` of its
      key; otherwise it is stored in its bucket. */
  function Write<K, E>(env: Env<K, E>, t: Table<K, E>, key: K, e: E, now: int): (r: Result<Table<K, E>, StoreError>)
    ensures r.Success?
    ensures env.isExpired(e, now) ==> r.value == Delete(env, t, key).value.0
    ensures !env.isExpired(e, now) ==> r == StoreInBucket(env, t, key, e)
  {
    if env.isExpired(e, now) then
      match Delete(env, t, key)
      case Success((t', _)) => Success(t')
      case Failure(err) => Failure(err)
    else StoreInBucket(env, t, key, e)
  }

  /** `load`: null without a row; otherwise the bucket's live entry for the
      key (the bucket hides entries expired at `now`). */
  function Load<K, E>(env: Env<K, E>, t: Table<K, E>, key: K, now: int): (r: Option<E>)
    ensures BucketOfKey(env, key) !in t ==> r.None?
    ensures r.Some? <==> BucketOfKey(env, key) in t && key in t[BucketOfKey(env, key)]
                         && !env.isExpired(t[BucketOfKey(env, key)][key], now)
    ensures r.Some? ==> r.value == t[BucketOfKey(env, key)][key]
  {
    var id := BucketOfKey(env, key);
    if id !in t then None
    else if key in t[id] && !env.isExpired(t[id][key], now) then Some(t[id][key])
    else None
  }

  /** `contains`: false without a row, else the bucket's answer. */
  function Contains<K, E>(env: Env<K, E>, t: Table<K, E>, key: K, now: int): (r: bool)
    ensures r <==> Load(env, t, key, now).Some?
  {
    var id := BucketOfKey(env, key);
    id in t && key in t[id] && !env.isExpired(t[id][key], now)
  }

  // ---------------------------------------------------------------------
  // Properties of write / load / delete

  lemma WriteThenLoad<K, E>(env: Env<K, E>, t: Table<K, E>, key: K, e: E, now: int)
    requires !env.isExpired(e, now)
    ensures Load(env, Write(env, t, key, e, now).value, key, now) == Some(e)
  {
  }

  lemma WriteExpiredStoresNothing<K, E>(env: Env<K, E>, t: Table<K, E>, key: K, e: E, now: int)
    requires env.isExpired(e, now)
    ensures Load(env, Write(env, t, key, e, now).value, key, now).None?
  {
  }

  /** A write of one key leaves every other key's load unchanged, including
      keys that share its bucket. */
  lemma WriteKeepsOtherKeys<K, E>(env: Env<K, E>, t: Table<K, E>, key: K, e: E, other: K, now: int)
    requires other != key
    ensures Load(env, Write(env, t, key, e, now).value, other, now) == Load(env, t, other, now)
  {
  }

  lemma DeleteThenLoad<K, E>(env: Env<K, E>, t: Table<K, E>, key: K, other: K, now: int)
    ensures Load(env, Delete(env, t, key).value.0, key, now).None?
    ensures other != key ==> Load(env, Delete(env, t, key).value.0, other, now) == Load(env, t, other, now)
  {
  }

  /** Two keys filed under one bucket: deleting the first leaves the second
      loadable. */
  lemma CollidingKeysAreIndependent<K, E>(env: Env<K, E>, t: Table<K, E>, a: K, b: K, ea: E, eb: E, now: int)
    requires a != b
    requires BucketOfKey(env, a) == BucketOfKey(env, b)
    requires !env.isExpired(ea, now) && !env.isExpired(eb, now)
    ensures
      var t1 := Write(env, t, a, ea, now).value;
      var t2 := Write(env, t1, b, eb, now).value;
      var t3 := Delete(env, t2, a).value.0;
      && BucketOfKey(env, a) in t2 && t2[BucketOfKey(env, a)].Keys >= {a, b}
      && Load(env, t3, b, now) == Some(eb)
      && Load(env, t3, a, now).None?
  {
  }

  lemma WritePreservesWellFormed<K, E>(env: Env<K, E>, t: Table<K, E>, key: K, e: E, now: int)
    requires WellFormed(env, t)
    ensures WellFormed(env, Write(env, t, key, e, now).value)
  {
  }

  lemma DeletePreservesWellFormed<K, E>(env: Env<K, E>, t: Table<K, E>, key: K)
    requires WellFormed(env, t)
    ensures WellFormed(env, Delete(env, t, key).value.0)
  {
  }

  // ---------------------------------------------------------------------
  // Purge

  /** The keys of a bucket whose entries are expired at `now`. */
  function ExpiredKeys<K, E>(env: Env<K, E>, b: Bucket<K, E>, now: int): set<K> {
    set k | k in b && env.isExpired(b[k], now)
  }

  /** The bucket after `removeExpiredEntries`. */
  function LiveEntries<K, E>(env: Env<K, E>, b: Bucket<K, E>, now: int): (r: Bucket<K, E>)
    ensures r.Keys == b.Keys - ExpiredKeys(env, b, now)
    ensures forall k :: k in r ==> r[k] == b[k] && !env.isExpired(b[k], now)
  {
    map k | k in b && !env.isExpired(b[k], now) :: b[k]
  }

  /** Listener notifications of a purge pass over the candidate rows: every
      expired key of every row whose lock was acquired, one each. */
  function PurgedKeys<K, E>(env: Env<K, E>, t: Table<K, E>, candidates: seq<BucketId>, busy: set<BucketId>, now: int): multiset<K>
    requires forall i :: 0 <= i < |candidates| ==> candidates[i] in t
  {
    if |candidates| == 0 then multiset{}
    else
      var last := candidates[|candidates| - 1];
      PurgedKeys(env, t, candidates[..|candidates| - 1], busy, now)
        + (if last in busy then multiset{} else multiset(ExpiredKeys(env, t[last], now)))
  }

  predicate Distinct<T(==)>(s: seq<T>) {
    forall i, j :: 0 <= i < j < |s| ==> s[i] != s[j]
  }

  /** Row `id` was left exactly as it was. */
  ghost predicate Untouched<K, E>(t: Table<K, E>, t': Table<K, E>, id: BucketId) {
    id in t && id in t' && t'[id] == t[id]
  }

  /** Row `id` was purged: rewritten with its live entries, or deleted when
      none are left. */
  ghost predicate PurgedRow<K, E>(env: Env<K, E>, t: Table<K, E>, t': Table<K, E>, id: BucketId, now: int)
    requires id in t
  {
    var live := LiveEntries(env, t[id], now);
    if |live| == 0 then id !in t' else id in t' && t'[id] == live
  }

  /** Rewrites one row with its live entries, deleting it when none are left. */
  function PurgeRow<K, E>(env: Env<K, E>, t: Table<K, E>, id: BucketId, bucket: Bucket<K, E>, now: int): (r: Table<K, E>)
    ensures forall other :: other != id ==> (other in r <==> other in t)
    ensures forall other :: other != id && other in r ==> r[other] == t[other]
    ensures var live := LiveEntries(env, bucket, now);
            if |live| == 0 then id !in r else id in r && r[id] == live
  {
    var live := LiveEntries(env, bucket, now);
    if |live| != 0 then t[id := live] else t - {id}
  }

  /** The loop invariant of `Purge` after `i` candidates. */
  ghost predicate PurgeInvariant<K, E>(env: Env<K, E>, t: Table<K, E>, t': Table<K, E>, done: seq<BucketId>, busy: set<BucketId>, now: int)
    requires forall i :: 0 <= i < |done| ==> done[i] in t
  {
    && t'.Keys <= t.Keys
    && (forall id :: id in t && (id !in done || id in busy) ==> Untouched(t, t', id))
    && (forall id :: id in done && id !in busy ==> PurgedRow(env, t, t', id, now))
  }

  /** `purge`: walks the rows the expiry query selected. A row whose write
      lock is not free at once (`busy`) is skipped. Otherwise its expired keys
      are removed and reported to the listener, and the row is rewritten if
      entries remain or deleted if none do. */
  method Purge<K, E>(env: Env<K, E>, t: Table<K, E>, candidates: seq<BucketId>, busy: set<BucketId>, now: int)
    returns (t': Table<K, E>, purged: multiset<K>)
    requires forall i :: 0 <= i < |candidates| ==> candidates[i] in t
    requires Distinct(candidates)
    ensures t'.Keys <= t.Keys
    ensures forall id :: id in t && (id !in candidates || id in busy) ==> Untouched(t, t', id)
    ensures forall id :: id in candidates && id !in busy ==> PurgedRow(env, t, t', id, now)
    ensures purged == PurgedKeys(env, t, candidates, busy, now)
  {
    t' := t;
    purged := multiset{};
    var i := 0;
    while i < |candidates|
      invariant 0 <= i <= |candidates|
      invariant PurgeInvariant(env, t, t', candidates[..i], busy, now)
      invariant purged == PurgedKeys(env, t, candidates[..i], busy, now)
    {
      t', purged := PurgeCandidate(env, t, t', purged, candidates, busy, now, i);
      i := i + 1;
    }
    assert candidates[..|candidates|] == candidates;
  }

  /** The body of the `Purge` loop for candidate `i`. */
  method PurgeCandidate<K, E>(env: Env<K, E>, t: Table<K, E>, cur: Table<K, E>, purged: multiset<K>,
                              candidates: seq<BucketId>, busy: set<BucketId>, now: int, i: nat)
    returns (next: Table<K, E>, purged': multiset<K>)
    requires i < |candidates|
    requires forall j :: 0 <= j < |candidates| ==> candidates[j] in t
    requires Distinct(candidates)
    requires PurgeInvariant(env, t, cur, candidates[..i], busy, now)
    requires purged == PurgedKeys(env, t, candidates[..i], busy, now)
    ensures PurgeInvariant(env, t, next, candidates[..i + 1], busy, now)
    ensures purged' == PurgedKeys(env, t, candidates[..i + 1], busy, now)
  {
    var id := candidates[i];
    PurgedKeysStep(env, t, candidates, busy, now, i);
    if id in busy {
      next, purged' := cur, purged;
      PurgeSkipStep(env, t, cur, candidates, busy, now, i);
    } else {
      var bucket := t[id];
      purged' := purged + multiset(ExpiredKeys(env, bucket, now));
      next := PurgeRow(env, cur, id, bucket, now);
      PurgeRowStep(env, t, cur, next, candidates, busy, now, i);
    }
  }

  /** A skipped candidate keeps the invariant. */
  lemma PurgeSkipStep<K, E>(env: Env<K, E>, t: Table<K, E>, cur: Table<K, E>,
                            candidates: seq<BucketId>, busy: set<BucketId>, now: int, i: nat)
    requires i < |candidates|
    requires forall j :: 0 <= j < |candidates| ==> candidates[j] in t
    requires PurgeInvariant(env, t, cur, candidates[..i], busy, now)
    requires candidates[i] in busy
    ensures PurgeInvariant(env, t, cur, candidates[..i + 1], busy, now)
  {
    PurgePrefixStep(candidates, i);
  }

  /** A processed candidate keeps the invariant. */
  lemma PurgeRowStep<K, E>(env: Env<K, E>, t: Table<K, E>, before: Table<K, E>, after: Table<K, E>,
                           candidates: seq<BucketId>, busy: set<BucketId>, now: int, i: nat)
    requires i < |candidates|
    requires forall j :: 0 <= j < |candidates| ==> candidates[j] in t
    requires Distinct(candidates)
    requires PurgeInvariant(env, t, before, candidates[..i], busy, now)
    requires candidates[i] !in busy
    requires after == PurgeRow(env, before, candidates[i], t[candidates[i]], now)
    ensures PurgeInvariant(env, t, after, candidates[..i + 1], busy, now)
  {
    var id := candidates[i];
    PurgePrefixStep(candidates, i);
    assert PurgedRow(env, t, after, id, now);
    forall j | j in candidates[..i] && j !in busy
      ensures PurgedRow(env, t, after, j, now)
    {
      assert j != id;
      PurgedRowFrame(env, t, before, after, j, now);
    }
    forall j | j in t && (j !in candidates[..i + 1] || j in busy)
      ensures Untouched(t, after, j)
    {
      assert j != id;
    }
  }

  lemma PurgedKeysStep<K, E>(env: Env<K, E>, t: Table<K, E>, candidates: seq<BucketId>, busy: set<BucketId>, now: int, i: nat)
    requires i < |candidates|
    requires forall j :: 0 <= j < |candidates| ==> candidates[j] in t
    ensures PurgedKeys(env, t, candidates[..i + 1], busy, now)
            == PurgedKeys(env, t, candidates[..i], busy, now)
               + (if candidates[i] in busy then multiset{} else multiset(ExpiredKeys(env, t[candidates[i]], now)))
  {
    var p := candidates[..i + 1];
    assert p[..|p| - 1] == candidates[..i];
    assert p[|p| - 1] == candidates[i];
  }

  /** Whether a row counts as purged depends only on that row of the result. */
  lemma PurgedRowFrame<K, E>(env: Env<K, E>, t: Table<K, E>, t1: Table<K, E>, t2: Table<K, E>, id: BucketId, now: int)
    requires id in t
    requires PurgedRow(env, t, t1, id, now)
    requires id in t1 <==> id in t2
    requires id in t1 ==> t2[id] == t1[id]
    ensures PurgedRow(env, t, t2, id, now)
  {
  }

  lemma PurgePrefixStep<T>(s: seq<T>, i: nat)
    requires i < |s|
    ensures s[..i + 1] == s[..i] + [s[i]]
    ensures s[..i + 1][..i] == s[..i]
    ensures forall x :: x in s[..i + 1] <==> x in s[..i] || x == s[i]
    ensures Distinct(s) ==> s[i] !in s[..i]
  {
    assert s[..i + 1] == s[..i] + [s[i]];
  }

  /** After a purge no processed row holds an expired entry, and live entries
      of processed rows survive. */
  lemma PurgeLeavesNoExpired<K, E>(env: Env<K, E>, t: Table<K, E>, t': Table<K, E>, candidates: seq<BucketId>, busy: set<BucketId>, now: int)
    requires forall i :: 0 <= i < |candidates| ==> candidates[i] in t
    requires forall id :: id in candidates && id !in busy ==> PurgedRow(env, t, t', id, now)
    ensures forall id, k :: id in candidates && id !in busy && id in t' && k in t'[id] ==> !env.isExpired(t'[id][k], now)
    ensures forall id, k :: id in candidates && id !in busy && k in t[id] && !env.isExpired(t[id][k], now) ==>
              id in t' && k in t'[id] && t'[id][k] == t[id][k]
  {
    forall id, k | id in candidates && id !in busy && k in t[id] && !env.isExpired(t[id][k], now)
      ensures id in t' && k in t'[id] && t'[id][k] == t[id][k]
    {
      assert k in LiveEntries(env, t[id], now);
    }
  }

  /** In a well-formed table with distinct candidate rows, the purge listener
      hears about each key at most once, and exactly about the expired keys of
      the rows it processed. */
  lemma {:induction false} PurgedKeysOncePerKey<K, E>(env: Env<K, E>, t: Table<K, E>, candidates: seq<BucketId>, busy: set<BucketId>, now: int, k: K)
    requires WellFormed(env, t)
    requires forall i :: 0 <= i < |candidates| ==> candidates[i] in t
    requires Distinct(candidates)
    ensures PurgedKeys(env, t, candidates, busy, now)[k] <= 1
    ensures PurgedKeys(env, t, candidates, busy, now)[k] == 1 <==>
              var id := BucketOfKey(env, k);
              id in candidates && id !in busy && k in t[id] && env.isExpired(t[id][k], now)
    decreases |candidates|
  {
    if |candidates| > 0 {
      var n := |candidates| - 1;
      var prefix := candidates[..n];
      var last := candidates[n];
      PurgedKeysOncePerKey(env, t, prefix, busy, now, k);
      var id := BucketOfKey(env, k);
      if last !in busy && k in ExpiredKeys(env, t[last], now) {
        assert last == id;
        assert id !in prefix;
      }
      assert id in candidates <==> id in prefix || id == last;
    }
  }

  lemma PurgePreservesWellFormed<K, E>(env: Env<K, E>, t: Table<K, E>, t': Table<K, E>, candidates: seq<BucketId>, busy: set<BucketId>, now: int)
    requires WellFormed(env, t)
    requires forall i :: 0 <= i < |candidates| ==> candidates[i] in t
    requires t'.Keys <= t.Keys
    requires forall id :: id in t && (id !in candidates || id in busy) ==> Untouched(t, t', id)
    requires forall id :: id in candidates && id !in busy ==> PurgedRow(env, t, t', id, now)
    ensures WellFormed(env, t')
  {
    forall id, k | id in t' && k in t'[id]
      ensures BucketOfKey(env, k) == id
    {
      assert id in t;
      if id in candidates && id !in busy {
        assert k in t[id];
      }
    }
  }
}
