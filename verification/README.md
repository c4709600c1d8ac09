# Infinispan entry lifecycle, modelled in Dafny

This project models how Infinispan keeps, expires, invalidates and ships
cache entries, and proves properties of that model. It covers thirteen
Java classes:

- **Entries and expiry.**
  - The transient-and-mortal cache entry: its expiry arithmetic in Java
    `long`s, its setters, `equals`, and its externalizer.
  - The expiration manager: the reaper lifecycle, the sweep over the data
    container, the in-memory and in-store expiry rules, and the write
    leases.
- **Storage.** The binary-keyed JDBC store. It keeps a table of buckets,
  one row per masked key hash, and supports write, load, contains, delete
  and the purge of expired entries.
- **Commands.** The functional write commands:
  - the shared key state;
  - read-write on a key;
  - read-write on a key with a value, which pins the previous value for
    retries;
  - write-only over many keys.

  Also the invalidation command. For each command the model covers
  `perform`, the positional `Object[]` parameter encoding and its decoding
  with checked casts, and the small predicates.
- **L1 invalidation.** The L1 manager keeps a requestor registry and
  flushes it by broadcast or unicast.
- **Small value classes:**
  - the functional-API `Params` array;
  - the Hot Rod client's per-thread pending flags;
  - the server subsystem's `Element` name table;
  - the cache-store `Remove` modification.

The model has fifteen files and one module per Java class, plus shared
modules:

- `Wrappers` holds `Option` and `Result`.
- `Commands` holds the value matcher, flags, entry views and parameter
  slots.
- `WriteKeyCommand` holds the state of `AbstractWriteKeyCommand`.

Every Java object that the code only passes around is a type parameter.
A Java `null` is `None`. Every exception the code can raise on its inputs
is a `Failure`. Clocks, the thread's interrupt status, lock acquisition,
injected failures and the collaborators the code calls into are all
parameters: the entries' expiry test, the key's hash, the value matcher's
test and the user functions. Effects on collaborators are returned as
recorded events: store deletions, notifications, remote calls and the
consumer's invocations.

## Model

| member | source | states |
|---|---|---|
| TransientMortalEntry.WrapLong | core/src/main/java/org/infinispan/container/entries/TransientMortalCacheEntry.java:93-94 | Java `long` overflow: a value in range is kept, anything else is congruent to the true sum modulo 2^64 |
| TransientMortalEntry.AddLong | core/src/main/java/org/infinispan/container/entries/TransientMortalCacheEntry.java:93-94 | a `long` sum equals the mathematical sum whenever that fits |
| TransientMortalEntry.NewEntry | core/src/main/java/org/infinispan/container/entries/TransientMortalCacheEntry.java:59-62 | the public constructor stores each argument in its own field despite the (maxIdle, lifespan, lastUsed, created) argument order |
| TransientMortalEntry.NewEntryAt | core/src/main/java/org/infinispan/container/entries/TransientMortalCacheEntry.java:47-51 | the clock-reading constructor sets `created` from one reading and `lastUsed` from the later `touch` reading |
| TransientMortalEntry.NewEntryWithDefaultsAt | core/src/main/java/org/infinispan/container/entries/TransientMortalCacheEntry.java:53-57 | the two-argument constructor takes the same two clock readings as the four-argument one, with the value class's default lifespan and max-idle, and agrees with the four-argument constructor given those defaults |
| TransientMortalEntry.Touch | core/src/main/java/org/infinispan/container/entries/TransientMortalCacheEntry.java:108-110 | `touch` sets last-used to the clock and changes nothing else |
| TransientMortalEntry.Reincarnate | core/src/main/java/org/infinispan/container/entries/TransientMortalCacheEntry.java:112-114 | `reincarnate` sets created to the clock and changes nothing else |
| TransientMortalEntry.SetLifespan | core/src/main/java/org/infinispan/container/entries/TransientMortalCacheEntry.java:64-66 | only the lifespan changes |
| TransientMortalEntry.SetMaxIdle | core/src/main/java/org/infinispan/container/entries/TransientMortalCacheEntry.java:68-70 | only the max-idle changes |
| TransientMortalEntry.SetValue | core/src/main/java/org/infinispan/container/entries/TransientMortalCacheEntry.java:120-122 | as written: the entry is left unchanged and the call answers the max-idle |
| TransientMortalEntry.SetValueLosesWrite | core/src/main/java/org/infinispan/container/entries/TransientMortalCacheEntry.java:120-122 | after `setValue` with a different value, the entry still does not hold it |
| TransientMortalEntry.SetValueCorrected | core/src/main/java/org/infinispan/container/entries/TransientMortalCacheEntry.java:120-122 | the intended `setValue`: the entry takes the new value, nothing else changes, and the old value is answered |
| TransientMortalEntry.SetValueCorrectedRoundTrip | core/src/main/java/org/infinispan/container/entries/TransientMortalCacheEntry.java:120-122 | with the corrected `setValue`, a read after a write sees it, and writing back the answer restores the entry |
| TransientMortalEntry.ExpiryTimeUnbounded | core/src/main/java/org/infinispan/container/entries/TransientMortalCacheEntry.java:92-98 | with neither lifespan nor max-idle the expiry time is -1 ("never") |
| TransientMortalEntry.ExpiryTimeLifespanOnly | core/src/main/java/org/infinispan/container/entries/TransientMortalCacheEntry.java:92-98 | with only a lifespan, the entry expires at created + lifespan |
| TransientMortalEntry.ExpiryTimeMaxIdleOnly | core/src/main/java/org/infinispan/container/entries/TransientMortalCacheEntry.java:92-98 | with only a max-idle, the entry expires at last-used + max-idle |
| TransientMortalEntry.ExpiryTimeBoth | core/src/main/java/org/infinispan/container/entries/TransientMortalCacheEntry.java:92-98 | with both, the expiry is the earlier of the two deadlines |
| TransientMortalEntry.ExpiryTimeSentinelClash | core/src/main/java/org/infinispan/container/entries/TransientMortalCacheEntry.java:93-96 | a negative creation time can make the lifespan deadline equal the -1 sentinel; it is then ignored and the later idle deadline is answered |
| TransientMortalEntry.EqualsIgnoresOtherFields | core/src/main/java/org/infinispan/container/entries/TransientMortalCacheEntry.java:125-135 | `equals` does not look at key, value, max-idle or last-used: touching or changing max-idle keeps an entry equal to itself |
| TransientMortalEntry.EqualsIsEquivalence | core/src/main/java/org/infinispan/container/entries/TransientMortalCacheEntry.java:125-135 | `equals` is symmetric and transitive |
| TransientMortalEntry.EqualsCharacterised | core/src/main/java/org/infinispan/container/entries/TransientMortalCacheEntry.java:125-135 | two entries are equal exactly when created and lifespan agree; changing either breaks equality |
| TransientMortalEntry.WriteUnsignedLong | core/src/main/java/org/infinispan/container/entries/TransientMortalCacheEntry.java:164 | one possible `UnsignedNumeric` writer: a `long` becomes its unsigned 64-bit pattern, which is the number itself when it is non-negative |
| TransientMortalEntry.UnsignedLongRoundTrip | core/src/main/java/org/infinispan/container/entries/TransientMortalCacheEntry.java:164-176 | the 64-bit pattern reads back every `long`, so it meets the one property the externalizer relies on: a non-negative timestamp reads back as written |
| TransientMortalEntry.WriteEntry | core/src/main/java/org/infinispan/container/entries/TransientMortalCacheEntry.java:161-168 | the stream holds six items: key, value, created through the unsigned codec, lifespan as a plain long, last-used through the unsigned codec, max-idle as a plain long |
| TransientMortalEntry.ExternalizerRoundTrip | core/src/main/java/org/infinispan/container/entries/TransientMortalCacheEntry.java:161-179 | for any unsigned codec that reads non-negative longs back, `readObject` after `writeObject` restores all six fields of an entry with non-negative timestamps and leaves the rest of the stream unread |
| TransientMortalEntry.ExternalizerRoundTripPattern | core/src/main/java/org/infinispan/container/entries/TransientMortalCacheEntry.java:161-179 | with the 64-bit pattern codec the round trip holds for every entry, negative timestamps included |
| TransientMortalEntry.ReadEntry | core/src/main/java/org/infinispan/container/entries/TransientMortalCacheEntry.java:171-179 | reading succeeds exactly when six items of the expected kinds are present; it answers all six fields found there, created and last-used through the unsigned codec's reader, and leaves the rest unread. A short stream is an end-of-stream error, otherwise the first item of the wrong kind is reported |
| TransientMortalEntry.ReadEntryNeedsSixTokens | core/src/main/java/org/infinispan/container/entries/TransientMortalCacheEntry.java:171-179 | a truncated stream fails with end-of-stream |
| BucketStore.BucketIdBits | persistence/jdbc/src/main/java/org/infinispan/persistence/jdbc/binary/JdbcBinaryStore.java:627-629 | a bucket id has its ten low bits clear and keeps the hash's upper 22 bits |
| BucketStore.BucketIdIdempotent | persistence/jdbc/src/main/java/org/infinispan/persistence/jdbc/binary/JdbcBinaryStore.java:627-629 | masking a bucket id again gives the same id |
| BucketStore.BucketIdSharing | persistence/jdbc/src/main/java/org/infinispan/persistence/jdbc/binary/JdbcBinaryStore.java:627-629 | two hashes share a bucket exactly when they agree above bit 10 |
| BucketStore.InsertBucket | persistence/jdbc/src/main/java/org/infinispan/persistence/jdbc/binary/JdbcBinaryStore.java:482-513 | an insert succeeds exactly when no row has the id (one row inserted), else the row-count error |
| BucketStore.UpdateBucket | persistence/jdbc/src/main/java/org/infinispan/persistence/jdbc/binary/JdbcBinaryStore.java:515-546 | an update succeeds exactly when the row exists (one row updated), else the row-count error |
| BucketStore.StoreInBucket | persistence/jdbc/src/main/java/org/infinispan/persistence/jdbc/binary/JdbcBinaryStore.java:601-612 | a store never fails: it extends the key's existing bucket row or creates a row holding only this entry; other rows are unchanged |
| BucketStore.Delete | persistence/jdbc/src/main/java/org/infinispan/persistence/jdbc/binary/JdbcBinaryStore.java:164-173 | delete answers true exactly when the key was in its bucket row; it removes only that key, keeps an emptied row, and on false leaves the table unchanged |
| BucketStore.Write | persistence/jdbc/src/main/java/org/infinispan/persistence/jdbc/binary/JdbcBinaryStore.java:118-134 | writing an already expired entry is a delete of its key; otherwise it is a store in its bucket |
| BucketStore.Load | persistence/jdbc/src/main/java/org/infinispan/persistence/jdbc/binary/JdbcBinaryStore.java:137-150 | load finds an entry exactly when the key's bucket row holds it unexpired, and then answers that entry |
| BucketStore.Contains | persistence/jdbc/src/main/java/org/infinispan/persistence/jdbc/binary/JdbcBinaryStore.java:152-161 | contains agrees with load |
| BucketStore.WriteThenLoad | persistence/jdbc/src/main/java/org/infinispan/persistence/jdbc/binary/JdbcBinaryStore.java:118-150 | a live entry that was written is loaded back |
| BucketStore.WriteExpiredStoresNothing | persistence/jdbc/src/main/java/org/infinispan/persistence/jdbc/binary/JdbcBinaryStore.java:118-150 | after writing an expired entry the key loads nothing |
| BucketStore.WriteKeepsOtherKeys | persistence/jdbc/src/main/java/org/infinispan/persistence/jdbc/binary/JdbcBinaryStore.java:118-150 | a write leaves every other key's load unchanged, including keys in the same bucket |
| BucketStore.DeleteThenLoad | persistence/jdbc/src/main/java/org/infinispan/persistence/jdbc/binary/JdbcBinaryStore.java:137-173 | after delete the key loads nothing and every other key loads as before |
| BucketStore.CollidingKeysAreIndependent | persistence/jdbc/src/main/java/org/infinispan/persistence/jdbc/binary/JdbcBinaryStore.java:601-625 | two keys of one bucket share a row, and deleting one leaves the other loadable |
| BucketStore.WritePreservesWellFormed | persistence/jdbc/src/main/java/org/infinispan/persistence/jdbc/binary/JdbcBinaryStore.java:118-134 | write keeps every key in the row of its own bucket id |
| BucketStore.DeletePreservesWellFormed | persistence/jdbc/src/main/java/org/infinispan/persistence/jdbc/binary/JdbcBinaryStore.java:164-173 | delete keeps every key in the row of its own bucket id |
| BucketStore.LiveEntries | persistence/jdbc/src/main/java/org/infinispan/persistence/jdbc/binary/JdbcBinaryStore.java:430-432 | removing expired entries keeps exactly the unexpired keys, with their entries |
| BucketStore.PurgeRow | persistence/jdbc/src/main/java/org/infinispan/persistence/jdbc/binary/JdbcBinaryStore.java:433-442 | a purged row with live entries left is rewritten with them; an emptied row is deleted; no other row changes |
| BucketStore.Purge | persistence/jdbc/src/main/java/org/infinispan/persistence/jdbc/binary/JdbcBinaryStore.java:284-379 | purge skips rows whose write lock is busy and leaves them and non-candidate rows unchanged. It purges every other candidate row and reports exactly those rows' expired keys |
| BucketStore.PurgeLeavesNoExpired | persistence/jdbc/src/main/java/org/infinispan/persistence/jdbc/binary/JdbcBinaryStore.java:420-479 | after purge no processed row holds an expired entry, and every live entry of a processed row survives unchanged |
| BucketStore.PurgedKeysOncePerKey | persistence/jdbc/src/main/java/org/infinispan/persistence/jdbc/binary/JdbcBinaryStore.java:284-379 | the purge listener hears of each key at most once, and exactly of the expired keys in processed rows |
| BucketStore.PurgePreservesWellFormed | persistence/jdbc/src/main/java/org/infinispan/persistence/jdbc/binary/JdbcBinaryStore.java:284-379 | purge keeps every key in the row of its own bucket id |
| ExpirationManager.Start | core/src/main/java/org/infinispan/expiration/impl/ExpirationManagerImpl.java:79-93 | the manager is enabled exactly when the reaper is enabled and the wake-up interval is positive; a task is scheduled only then |
| ExpirationManager.Stop | core/src/main/java/org/infinispan/expiration/impl/ExpirationManagerImpl.java:184-188 | stop cancels a scheduled task, keeps its delay, and otherwise changes nothing |
| ExpirationManager.StartStopLifecycle | core/src/main/java/org/infinispan/expiration/impl/ExpirationManagerImpl.java:79-93 | from a fresh manager, a task is scheduled exactly when the manager is enabled, with the interval as its delay; stop then cancels it |
| ExpirationManager.HandleInMemoryExpiration | core/src/main/java/org/infinispan/expiration/impl/ExpirationManagerImpl.java:132-144 | only the entry's own key can change. It is removed, deleted from all stores and notified with the entry's value and metadata exactly when the slot still holds this very entry object |
| ExpirationManager.InMemoryExpirationIdempotent | core/src/main/java/org/infinispan/expiration/impl/ExpirationManagerImpl.java:132-144 | expiring the same entry a second time does nothing |
| ExpirationManager.InMemoryAgreesWithInStore | core/src/main/java/org/infinispan/expiration/impl/ExpirationManagerImpl.java:132-171 | for a slot holding an expirable, expired entry, the in-memory and in-store rules give the same container and the same effects |
| ExpirationManager.InStoreExpirationOutcome | core/src/main/java/org/infinispan/expiration/impl/ExpirationManagerImpl.java:147-171 | the in-store rule removes the key exactly when the slot is empty or holds an expirable, expired entry, and leaves other keys and leases alone. It deletes from all stores first and notifies with the former value and metadata, or nulls |
| ExpirationManager.InStoreKeepsImmortal | core/src/main/java/org/infinispan/expiration/impl/ExpirationManagerImpl.java:152 | an entry that cannot expire is never removed by the in-store rule |
| ExpirationManager.Sweep | core/src/main/java/org/infinispan/expiration/impl/ExpirationManagerImpl.java:105-111 | the sweep removes exactly the keys whose slot held one of the iterated entries that was expired. Every removal has a store deletion, and nothing else changes |
| ExpirationManager.ProcessExpiration | core/src/main/java/org/infinispan/expiration/impl/ExpirationManagerImpl.java:96-144 | an interrupt before the sweep skips it. An exception ends it, either before an entry is handled or inside the in-memory rule after the store deletion; in the latter case the store deletion is the last sweep effect and the entry stays in the container. Unexpired entries always stay, and every other deleted key has left the container. The store purge is requested last, exactly when the thread is not interrupted at the second check, even after an exception |
| ExpirationManager.RegisterWriteIncoming | core/src/main/java/org/infinispan/expiration/impl/ExpirationManagerImpl.java:174-176 | the key holds a lease afterwards; no other lease and nothing else changes |
| ExpirationManager.UnregisterWrite | core/src/main/java/org/infinispan/expiration/impl/ExpirationManagerImpl.java:179-181 | the key holds no lease afterwards; no other lease and nothing else changes |
| ExpirationManager.LeasesIdempotent | core/src/main/java/org/infinispan/expiration/impl/ExpirationManagerImpl.java:174-181 | registering or unregistering twice is the same as once, and unregistering undoes a fresh registration |
| Commands.ValueMatcherOf | core/src/main/java/org/infinispan/commands/functional/AbstractWriteKeyCommand.java:17-19 | `ValueMatcher.valueOf` answers a constant that carries the given name, or `IllegalArgumentException` |
| Commands.ValueMatcherOfName | core/src/main/java/org/infinispan/commands/functional/AbstractWriteKeyCommand.java:17-19 | every constant is found by its name, and the lookup fails exactly on names no constant carries |
| Commands.Launder | core/src/main/java/org/infinispan/commands/functional/ReadWriteKeyCommand.java:83-88 | a read-write view is never returned: it becomes an immutable view of the same content, and anything else passes through |
| Commands.LaunderIdempotent | core/src/main/java/org/infinispan/commands/functional/ReadWriteKeyCommand.java:83-88 | laundering twice is laundering once |
| Commands.NullableAt | core/src/main/java/org/infinispan/commands/functional/ReadWriteKeyValueCommand.java:52-53 | a nullable slot, or the uncast key slot, reads back as the object or as null; any other kind of object is a cast error, and a missing slot an index error |
| Commands.NullableSlot | core/src/main/java/org/infinispan/commands/functional/ReadWriteKeyValueCommand.java:64-66 | a null is written as a null slot, and an object as an object slot |
| Commands.FunctionAt | core/src/main/java/org/infinispan/commands/functional/ReadWriteKeyCommand.java:40 | the function cast succeeds exactly on a function slot |
| Commands.MatcherAt | core/src/main/java/org/infinispan/commands/functional/ReadWriteKeyCommand.java:41 | the matcher cast succeeds exactly on a matcher slot |
| Commands.FlagsAt | core/src/main/java/org/infinispan/commands/functional/ReadWriteKeyCommand.java:42 | the flag-set cast succeeds exactly on a flags slot |
| Commands.InvocationIdAt | core/src/main/java/org/infinispan/commands/functional/ReadWriteKeyCommand.java:43 | the invocation-id cast succeeds exactly on an invocation-id slot |
| Commands.BoolAt | core/src/main/java/org/infinispan/commands/functional/WriteOnlyManyCommand.java:52 | the boolean cast succeeds exactly on a boolean slot |
| Commands.KeySetAt | core/src/main/java/org/infinispan/commands/functional/WriteOnlyManyCommand.java:50 | the key-set cast succeeds exactly on a key-set slot |
| WriteKeyCommand.NewKeyCommand | core/src/main/java/org/infinispan/commands/functional/AbstractWriteKeyCommand.java:13-20 | no annotation gives `MATCH_ALWAYS`. An annotation gives the matcher it names, and an unknown name fails with `IllegalArgumentException`. A new command is successful and has no flags |
| WriteKeyCommand.DefaultAnnotationIsMatchAlways | core/src/main/java/org/infinispan/commands/functional/AbstractWriteKeyCommand.java:17-19 | an annotation with the default matcher name is the same as no annotation |
| WriteKeyCommand.SetValueMatcher | core/src/main/java/org/infinispan/commands/functional/AbstractWriteKeyCommand.java:32-34 | only the matcher changes |
| WriteKeyCommand.ValueMatcherAccessors | core/src/main/java/org/infinispan/commands/functional/AbstractWriteKeyCommand.java:27-39 | the matcher read back is the one set, writing back the read matcher changes nothing, and the success flag is kept |
| ReadWriteKeyCommand.NewReadWriteKey | core/src/main/java/org/infinispan/commands/functional/ReadWriteKeyCommand.java:22-25 | the command is built exactly when the key state is, from that state and the function |
| ReadWriteKeyCommand.PerformMatchNever | core/src/main/java/org/infinispan/commands/functional/ReadWriteKeyCommand.java:59-62 | `MATCH_NEVER` marks the command unsuccessful, changes nothing else, looks nothing up and answers null |
| ReadWriteKeyCommand.PerformNotLocal | core/src/main/java/org/infinispan/commands/functional/ReadWriteKeyCommand.java:64-67 | a key that is not local answers null without calling the function |
| ReadWriteKeyCommand.PerformApplies | core/src/main/java/org/infinispan/commands/functional/ReadWriteKeyCommand.java:64-71 | the function runs once, on a read-write view of the entry. Its result is laundered: never a read-write view, and unchanged unless it was one |
| ReadWriteKeyCommand.Perform | core/src/main/java/org/infinispan/commands/functional/ReadWriteKeyCommand.java:57-72 | only the success flag can change, and it is cleared exactly for `MATCH_NEVER`. A result comes back exactly when the matcher is not `MATCH_NEVER` and the key is local, and it is never a read-write view |
| ReadWriteKeyCommand.GetParameters | core/src/main/java/org/infinispan/commands/functional/ReadWriteKeyCommand.java:47-49 | the encoding has five slots |
| ReadWriteKeyCommand.SetParameters | core/src/main/java/org/infinispan/commands/functional/ReadWriteKeyCommand.java:37-44 | a foreign command id raises `IllegalStateException`. Decoding succeeds exactly when the key slot holds an object or a null and the other four slots hold what their casts expect, and it keeps the success flag |
| ReadWriteKeyCommand.ParametersRoundTrip | core/src/main/java/org/infinispan/commands/functional/ReadWriteKeyCommand.java:37-49 | decoding the encoding restores key, function, matcher and invocation id; the flags come back without the remotable ones |
| ReadWriteKeyCommand.ShortParametersFail | core/src/main/java/org/infinispan/commands/functional/ReadWriteKeyCommand.java:37-44 | fewer than five slots never decode |
| ReadWriteKeyCommand.IsConditional | core/src/main/java/org/infinispan/commands/functional/ReadWriteKeyCommand.java:52-54 | the command is conditional |
| ReadWriteKeyValueCommand.NewReadWriteKeyValue | core/src/main/java/org/infinispan/commands/functional/ReadWriteKeyValueCommand.java:33-38 | the command is built exactly when the key state is, with no previous value or metadata pinned |
| ReadWriteKeyValueCommand.LaunderWithCurrent | core/src/main/java/org/infinispan/commands/functional/ReadWriteKeyValueCommand.java:116-121 | a read-write view is never returned |
| ReadWriteKeyValueCommand.PerformMatchNever | core/src/main/java/org/infinispan/commands/functional/ReadWriteKeyValueCommand.java:78-81 | `MATCH_NEVER` marks the command unsuccessful before any lookup and answers null |
| ReadWriteKeyValueCommand.PerformNotLocal | core/src/main/java/org/infinispan/commands/functional/ReadWriteKeyValueCommand.java:83-86 | a key that is not local answers null and pins nothing |
| ReadWriteKeyValueCommand.PerformPinsPrevious | core/src/main/java/org/infinispan/commands/functional/ReadWriteKeyValueCommand.java:88-92 | the entry's value and metadata are pinned exactly when none is pinned yet and the command is not a retry. A pinned value is never overwritten, and nothing else changes |
| ReadWriteKeyValueCommand.PinnedValueIsStable | core/src/main/java/org/infinispan/commands/functional/ReadWriteKeyValueCommand.java:88-92 | once a non-null previous value is pinned, a later execution against any entry keeps it and its metadata |
| ReadWriteKeyValueCommand.PerformBranches | core/src/main/java/org/infinispan/commands/functional/ReadWriteKeyValueCommand.java:94-105 | on a matcher match the function sees the pinned snapshot and a returned read-write view is laundered with the current entry. Otherwise it sees the live entry and its result is returned as is. It runs exactly once |
| ReadWriteKeyValueCommand.Perform | core/src/main/java/org/infinispan/commands/functional/ReadWriteKeyValueCommand.java:76-105 | only the success flag and the pinned previous value and metadata can change; the flag is cleared exactly for `MATCH_NEVER`, and a pinned value is kept. A result comes back exactly when the matcher is not `MATCH_NEVER` and the key is local |
| ReadWriteKeyValueCommand.Pin | core/src/main/java/org/infinispan/commands/functional/ReadWriteKeyValueCommand.java:88-92 | the previous value and metadata are taken from the entry exactly when none is pinned and the command is not a retry; otherwise the command is unchanged |
| ReadWriteKeyValueCommand.GetParameters | core/src/main/java/org/infinispan/commands/functional/ReadWriteKeyValueCommand.java:63-68 | the encoding has eight slots |
| ReadWriteKeyValueCommand.SetParameters | core/src/main/java/org/infinispan/commands/functional/ReadWriteKeyValueCommand.java:50-60 | a foreign command id raises `IllegalStateException`. In the model, decoding succeeds exactly when slots 0, 1, 6 and 7 each hold an application object or a null and the other four slots hold what their casts expect; the success flag is kept. The Typed-slots line under Left out gives where this differs from Java |
| ReadWriteKeyValueCommand.ParametersRoundTrip | core/src/main/java/org/infinispan/commands/functional/ReadWriteKeyValueCommand.java:50-68 | decoding the encoding restores every field, nulls and the pinned previous value and metadata included; the flags come back filtered |
| ReadWriteKeyValueCommand.ShortParametersFail | core/src/main/java/org/infinispan/commands/functional/ReadWriteKeyValueCommand.java:50-60 | fewer than eight slots never decode |
| ReadWriteKeyValueCommand.IsConditional | core/src/main/java/org/infinispan/commands/functional/ReadWriteKeyValueCommand.java:71-73 | the command is conditional |
| WriteOnlyManyCommand.NewWriteOnlyMany | core/src/main/java/org/infinispan/commands/functional/WriteOnlyManyCommand.java:22-25 | the command holds the given keys and consumer and is not forwarded |
| WriteOnlyManyCommand.CopyOf | core/src/main/java/org/infinispan/commands/functional/WriteOnlyManyCommand.java:27-30 | the copy has the original's keys and consumer |
| WriteOnlyManyCommand.SetKeys | core/src/main/java/org/infinispan/commands/functional/WriteOnlyManyCommand.java:39-41 | only the keys change |
| WriteOnlyManyCommand.KeysAccessors | core/src/main/java/org/infinispan/commands/functional/WriteOnlyManyCommand.java:35-41 | the keys read back are the keys set, and writing back the read keys changes nothing |
| WriteOnlyManyCommand.Perform | core/src/main/java/org/infinispan/commands/functional/WriteOnlyManyCommand.java:66-84 | the consumer is applied exactly once to every local key and to nothing else, in the set's iteration order, and the result holds one null per application |
| WriteOnlyManyCommand.LocalInOrderCounts | core/src/main/java/org/infinispan/commands/functional/WriteOnlyManyCommand.java:66-84 | over an iteration order without repetitions, the keys picked for the consumer are each local key once and nothing else |
| WriteOnlyManyCommand.CountOfLocalKeys | core/src/main/java/org/infinispan/commands/functional/WriteOnlyManyCommand.java:73-83 | a list holding each local key once has as many elements as there are local keys |
| WriteOnlyManyCommand.GetParameters | core/src/main/java/org/infinispan/commands/functional/WriteOnlyManyCommand.java:56-58 | the encoding has three slots |
| WriteOnlyManyCommand.SetParameters | core/src/main/java/org/infinispan/commands/functional/WriteOnlyManyCommand.java:49-53 | decoding succeeds exactly when the first three slots hold a key set, a function and a boolean, whatever the command id |
| WriteOnlyManyCommand.ParametersRoundTrip | core/src/main/java/org/infinispan/commands/functional/WriteOnlyManyCommand.java:49-58 | decoding the encoding gives back the command, the forwarded flag included |
| WriteOnlyManyCommand.IsWriteOnly | core/src/main/java/org/infinispan/commands/functional/WriteOnlyManyCommand.java:112-114 | the command is write-only |
| WriteOnlyManyCommand.IsReturnValueExpected | core/src/main/java/org/infinispan/commands/functional/WriteOnlyManyCommand.java:87-89 | no return value is expected |
| WriteOnlyManyCommand.CanBlock | core/src/main/java/org/infinispan/commands/functional/WriteOnlyManyCommand.java:92-94 | the command never blocks |
| WriteOnlyManyCommand.AffectedKeys | core/src/main/java/org/infinispan/commands/functional/WriteOnlyManyCommand.java:97-99 | the affected keys are null |
| WriteOnlyManyCommand.IgnoreCommandOnStatus | core/src/main/java/org/infinispan/commands/functional/WriteOnlyManyCommand.java:107-109 | the command is never ignored, whatever the status |
| InvalidateCommand.NewInvalidate | core/src/main/java/org/infinispan/commands/write/InvalidateCommand.java:37-42 | the varargs constructor keeps the key array as given, null included |
| InvalidateCommand.NewInvalidateFromCollection | core/src/main/java/org/infinispan/commands/write/InvalidateCommand.java:44-52 | the collection constructor never leaves the array null: a null or empty collection gives the empty array, otherwise its elements |
| InvalidateCommand.GetParameters | core/src/main/java/org/infinispan/commands/write/InvalidateCommand.java:94-107 | the encoding is the invocation id, the key count, then the keys in order, with a null array counted as zero keys |
| InvalidateCommand.SizeAt | core/src/main/java/org/infinispan/commands/write/InvalidateCommand.java:114 | the size slot unboxes exactly an integer |
| InvalidateCommand.SetParameters | core/src/main/java/org/infinispan/commands/write/InvalidateCommand.java:109-121 | a foreign id raises `IllegalStateException`. Decoding succeeds exactly when slot 0 holds an invocation id, slot 1 holds a non-negative size and the slots after it cover that size. It then answers that id, and the keys are the slots after the size |
| InvalidateCommand.ParametersRoundTrip | core/src/main/java/org/infinispan/commands/write/InvalidateCommand.java:94-121 | decoding the encoding restores the invocation id and the exact key sequence; a null array comes back empty |
| InvalidateCommand.DecodedLengthIsSize | core/src/main/java/org/infinispan/commands/write/InvalidateCommand.java:114-120 | the decoded array is as long as the size slot says |
| InvalidateCommand.Perform | core/src/main/java/org/infinispan/commands/write/InvalidateCommand.java:61-74 | every key is invalidated once, in array order; a null array fails with `NullPointerException` |
| InvalidateCommand.IgnoreCommandOnStatus | core/src/main/java/org/infinispan/commands/write/InvalidateCommand.java:147-157 | the command is ignored exactly when the component is failed, stopping or terminated |
| InvalidateCommand.GetKey | core/src/main/java/org/infinispan/commands/write/InvalidateCommand.java:128-131 | `getKey` always raises `UnsupportedOperationException` |
| InvalidateCommand.AffectedKeys | core/src/main/java/org/infinispan/commands/write/InvalidateCommand.java:137-140 | the affected keys are exactly the array's elements; a null array fails |
| InvalidateCommand.KeysToLock | core/src/main/java/org/infinispan/commands/write/InvalidateCommand.java:142-145 | the keys to lock are the array in order; a null array fails |
| L1Manager.AddRequestor | core/src/main/java/org/infinispan/distribution/L1ManagerImpl.java:63-71 | the origin joins the key's requestor set, which is created on first use. Earlier requestors stay, nothing else is added, and other keys are untouched |
| L1Manager.RequestorsOfCharacterised | core/src/main/java/org/infinispan/distribution/L1ManagerImpl.java:117-125 | a node is among the collected requestors exactly when it requested one of the keys |
| L1Manager.InvalidationAddresses | core/src/main/java/org/infinispan/distribution/L1ManagerImpl.java:117-130 | the originator is never among the invalidation addresses |
| L1Manager.InvalidationAddressesCharacterised | core/src/main/java/org/infinispan/distribution/L1ManagerImpl.java:117-130 | a node is an invalidation address exactly when it requested one of the keys and is not the originator |
| L1Manager.IsUseMulticastCases | core/src/main/java/org/infinispan/distribution/L1ManagerImpl.java:132-139 | threshold -1 forces unicast and 0 forces multicast. Otherwise a transport that cannot multicast unicasts, and one that can multicasts exactly above the threshold |
| L1Manager.CleanupRequestors | core/src/main/java/org/infinispan/distribution/L1ManagerImpl.java:111-115 | the flushed keys leave the registry and every other key's entry is untouched |
| L1Manager.FlushCacheCleansUp | core/src/main/java/org/infinispan/distribution/L1ManagerImpl.java:73-109 | after a flush the flushed keys are gone, even if the remote call fails. The exception is a multicast flush whose command cannot be built: it leaves the registry unchanged. Other keys are untouched |
| L1Manager.FlushCacheDispatch | core/src/main/java/org/infinispan/distribution/L1ManagerImpl.java:73-109 | multicast broadcasts. Unicast sends to exactly the requestors of the keys other than the originator. A failure at build or at the remote call is reported as such |
| L1Manager.RegisteredRequestorIsInvalidated | core/src/main/java/org/infinispan/distribution/L1ManagerImpl.java:63-71 | a node that requested a key is an invalidation target of any flush of that key it did not originate |
| FunctionalParams.Create | core/src/main/java/org/infinispan/functional/impl/Params.java:78-80 | a new collection holds the defaults |
| FunctionalParams.Override | core/src/main/java/org/infinispan/functional/impl/Params.java:55-60 | writing the parameters succeeds exactly when every id indexes the array, keeps the length, and otherwise fails on an out-of-range id |
| FunctionalParams.OverrideLastWins | core/src/main/java/org/infinispan/functional/impl/Params.java:58 | a slot named by no parameter keeps its value, and a slot named by several holds the last of them |
| FunctionalParams.AddAll | core/src/main/java/org/infinispan/functional/impl/Params.java:55-60 | `addAll` succeeds exactly when every id is in range, and keeps the length |
| FunctionalParams.Get | core/src/main/java/org/infinispan/functional/impl/Params.java:69-71 | `get` answers the parameter at the index, and an index out of range fails with that index |
| FunctionalParams.AddThenGet | core/src/main/java/org/infinispan/functional/impl/Params.java:55-71 | a parameter just added is read back by its id, and every other slot is as before |
| FunctionalParams.ContainsAll | core/src/main/java/org/infinispan/functional/impl/Params.java:46-50 | true exactly when every given parameter occurs in the current ones |
| FunctionalParams.FromIsAddAllToCreate | core/src/main/java/org/infinispan/functional/impl/Params.java:82-91 | the all-defaults shortcut in `from` agrees with adding the parameters to `create()` |
| FunctionalParams.DefaultsOverrideNothing | core/src/main/java/org/infinispan/functional/impl/Params.java:85-89 | writing default parameters over the defaults changes nothing |
| FunctionalParams.AddAllIdempotent | core/src/main/java/org/infinispan/functional/impl/Params.java:55-60 | adding the same parameters twice is the same as adding them once |
| OperationsFactory.Flags | client/hotrod-client/src/main/java/org/infinispan/client/hotrod/impl/operations/OperationsFactory.java:209-220 | `flags()` clears the thread's pending list and leaves other threads alone. A forced return value always ends the result. The result is null exactly when nothing is pending and nothing is forced |
| OperationsFactory.SetFlags | client/hotrod-client/src/main/java/org/infinispan/client/hotrod/impl/operations/OperationsFactory.java:222-227 | the thread's pending list becomes the given flags; other threads are untouched |
| OperationsFactory.AddFlags | client/hotrod-client/src/main/java/org/infinispan/client/hotrod/impl/operations/OperationsFactory.java:229-237 | the thread has a pending list afterwards; other threads are untouched |
| OperationsFactory.FlagsConsumesOnce | client/hotrod-client/src/main/java/org/infinispan/client/hotrod/impl/operations/OperationsFactory.java:209-220 | a second `flags()` with nothing set in between sees no pending flags |
| OperationsFactory.SetThenFlags | client/hotrod-client/src/main/java/org/infinispan/client/hotrod/impl/operations/OperationsFactory.java:209-227 | what was set is what the next operation receives, in order, with the forced flag appended |
| OperationsFactory.AddFlagsAppends | client/hotrod-client/src/main/java/org/infinispan/client/hotrod/impl/operations/OperationsFactory.java:229-237 | adding extends the pending list. Adding twice is adding the concatenation, and with nothing pending, adding is setting |
| OperationsFactory.HasFlagAfterAdd | client/hotrod-client/src/main/java/org/infinispan/client/hotrod/impl/operations/OperationsFactory.java:229-242 | after adding, a flag is pending exactly when it was before or was added |
| OperationsFactory.HasFlagPredictsFlags | client/hotrod-client/src/main/java/org/infinispan/client/hotrod/impl/operations/OperationsFactory.java:209-242 | a pending flag is in the next `flags()` result; without forced return values nothing else is |
| SubsystemElement.Values | server/integration/infinispan/src/main/java/org/jboss/as/clustering/infinispan/subsystem/Element.java:37-105 | there are 64 constants in declaration order, `UNKNOWN` first |
| SubsystemElement.InValues | server/integration/infinispan/src/main/java/org/jboss/as/clustering/infinispan/subsystem/Element.java:37-105 | every constant is among the values |
| SubsystemElement.LocalName | server/integration/infinispan/src/main/java/org/jboss/as/clustering/infinispan/subsystem/Element.java:39-127 | only `UNKNOWN` has a null name. `JDBC_STORE` and `REHASHING` carry their literals, and every other constant carries its model key's XML name |
| SubsystemElement.BuildElements | server/integration/infinispan/src/main/java/org/jboss/as/clustering/infinispan/subsystem/Element.java:135-142 | every mapped element carries its name, and every named element's name is mapped |
| SubsystemElement.UnknownIsNotMapped | server/integration/infinispan/src/main/java/org/jboss/as/clustering/infinispan/subsystem/Element.java:135-142 | `UNKNOWN` is never a value of the name map |
| SubsystemElement.ForNameFallsBackToUnknown | server/integration/infinispan/src/main/java/org/jboss/as/clustering/infinispan/subsystem/Element.java:144-147 | a null name, and a name no element carries, both give `UNKNOWN` |
| SubsystemElement.ForNameFindsNamed | server/integration/infinispan/src/main/java/org/jboss/as/clustering/infinispan/subsystem/Element.java:135-147 | a found element carries the name it was looked up by, and every carried name finds an element |
| SubsystemElement.ForNameOfLocalName | server/integration/infinispan/src/main/java/org/jboss/as/clustering/infinispan/subsystem/Element.java:125-147 | with distinct names, looking an element up by its own name gives it back |
| RemoveModification.GetType | trunk/core/src/main/java/org/infinispan/loaders/modifications/Remove.java:17-19 | the type is always `REMOVE` |
| RemoveModification.GetKey | trunk/core/src/main/java/org/infinispan/loaders/modifications/Remove.java:13-23 | the key read back is the key the modification was built with |
| RemoveModification.Equals | trunk/core/src/main/java/org/infinispan/loaders/modifications/Remove.java:26-35 | null and other classes are unequal. Another remove is equal exactly when the keys are null-safely equal |
| RemoveModification.HashCode | trunk/core/src/main/java/org/infinispan/loaders/modifications/Remove.java:38-41 | a null key hashes to 0, and otherwise to the key's hash |
| RemoveModification.EqualRemovesHashAlike | trunk/core/src/main/java/org/infinispan/loaders/modifications/Remove.java:26-41 | with a lawful key class, equal removes have equal hashes, and the same-object shortcut agrees with comparing keys |
| RemoveModification.EqualsIsEquivalence | trunk/core/src/main/java/org/infinispan/loaders/modifications/Remove.java:26-35 | with a lawful key class, remove equality is reflexive, symmetric and transitive |

## Left out

- **Outside the model.** I/O and concurrency are left out:
  - JDBC connections, SQL text and marshalling of buckets;
  - the striped bucket locks, `synchronized` blocks and the data container's `compute` locking;
  - executors and completion services.

  Each public operation is one atomic step.
- **Collaborators as parameters.** The clocks are plain parameters. The remote calls and the future of `flushCache` are a recorded `Dispatch`. The `retval` argument of `flushCache` is not modelled.
- **Bucket internals.** Only the map from keys to entries is modelled. The expiry test on the entry's metadata is the parameter `isExpired`, so a null metadata is folded into it. `process`, `clear`, `size`, `init`, `start` and `stop` of the JDBC store are not modelled: they are iteration and SQL housekeeping.
- **Purge drops what the row checks cannot see.**
  - Purge is modelled from the rows its expiry query selected.
  - An SQL failure midway is not modelled.
  - The batching of rows into purger tasks is not modelled.
  - The waiting for lock release is not modelled.
- **Command internals.**
  - The inherited remove that `InvalidateCommand.perform` runs for each key is only recorded: it belongs to `RemoveCommand`, which is not part of this model.
  - `notify`, `toString`, `equals` and `hashCode` of the invalidation command are not modelled.
  - The visitor dispatch and `updateStatusFromRemoteResponse` of the commands are not modelled.
- **Unmodelled types.** The value matcher's `matches` and the entry views' writes are parameters of the functions. A function's writes through its view are modelled only as the entry afterwards. `ValueMatcher`'s other members, `ModelKeys`, `Param`/`FutureMode`, `Flag.copyWithoutRemotableFlags` and `Modification.Type` are not part of this model.
- **Null flags.** A command whose flags are null is modelled with the empty set.
- **Null key sets.** `CollectionFactory.makeSet(null)` and `Arrays.asList(null)` are taken to throw `NullPointerException` on a null key array.
- **Typed slots.** The model's decoders check the slots more strictly than the Java assignments do:
  - **Nulls in cast slots.** A null in a slot whose reader casts to a class is modelled as a cast error. Java accepts the null, and the command may fail later when it uses the field.
  - **Uncast slots.** The key slot 0 of both read-write commands is assigned without a cast. So are the `value` slot 1 and `prevValue` slot 6 of the read-write key-value command, whose `(V)` casts are erased generics. The model accepts only an application object or a null there. A function, matcher, flag set, id or number in such a slot is taken by Java as the field's value, but is a cast error in the model, whose keys and values are application objects.
  - **Metadata slot.** The `prevMetadata` slot 7 is a checked cast to `Metadata` in Java. The model treats metadata as an application object, so any application object decodes there, where Java would reject an object that is not metadata.
- **Failing decoders.** When a `setParameters` fails midway, Java has already assigned the fields read before the failure. The model returns only the failure.
- TransientMortalEntry.Equals: it has no contract of its own; `EqualsCharacterised`, `EqualsIsEquivalence` and `EqualsIgnoresOtherFields` state it. The `this == o` shortcut and the class check are not modelled, because only entries of this class are compared. The entry's `hashCode` is also not modelled: it needs Java `int` arithmetic over the superclass hash.
- RemoveModification.HashCode: the key's hash is an unbounded integer, not a Java `int`.
- OperationsFactory.SetFlags: `setFlags(null)` and `addFlags(null)` raise `NullPointerException` in Java; the model takes a sequence, so it has no null here. The shared static `FORCE_RETURN_VALUE` array is answered by reference in Java; the model answers a fresh list.
- OperationsFactory.HasFlag: it has no contract of its own; `HasFlagAfterAdd` and `HasFlagPredictsFlags` state what it answers.
- L1Manager.FlushCache: it has no contract of its own; `FlushCacheCleansUp` and `FlushCacheDispatch` state its outcome.
- ExpirationManager.HandleInStoreExpiration: it has no contract of its own; `InStoreExpirationOutcome` and `InStoreKeepsImmortal` state its outcome.
- ExpirationManager.IsEnabled: it has no contract of its own; `StartStopLifecycle` states what it answers after `start`.
- TransientMortalEntry.ExpiryTime: it has no contract of its own; `ExpiryTimeUnbounded`, `ExpiryTimeLifespanOnly`, `ExpiryTimeMaxIdleOnly`, `ExpiryTimeBoth` and `ExpiryTimeSentinelClash` state it.
- TransientMortalEntry.WriteUnsignedLong: `UnsignedNumeric` is not part of this model. The externalizer takes the unsigned codec as a parameter and relies only on non-negative longs reading back, so `ExternalizerRoundTrip` promises nothing for a negative creation or last-used time; the 64-bit pattern is one codec that also reads negative longs back (`ExternalizerRoundTripPattern`).
- ReadWriteKeyValueCommand.Matched: it has no contract of its own; `PerformBranches` states what each outcome of the test leads to.
- L1Manager.IsUseMulticast: it has no contract of its own; `IsUseMulticastCases` states every case.
- SubsystemElement.ForName: it has no contract of its own; `ForNameFallsBackToUnknown`, `ForNameFindsNamed` and `ForNameOfLocalName` state it.
- FunctionalParams.From: it has no contract of its own; `FromIsAddAllToCreate` states it.
- WriteKeyCommand.GetValueMatcher: a plain getter with no contract of its own; `ValueMatcherAccessors` states it.
- WriteKeyCommand.IsSuccessful: a plain getter with no contract of its own; `ValueMatcherAccessors` states that setting the matcher keeps it.
- WriteOnlyManyCommand.GetKeys: a plain getter with no contract of its own; `KeysAccessors` states it.
- **The L1 multicast asymmetry.** In the multicast branch of `flushCache` the command is built before the `try`. A failing build therefore skips `cleanupRequestors`; in the unicast branch it does not. This is modelled as written (`FlushCacheCleansUp`), not as a finding, because nothing says which behaviour was intended.
- **Missing accessors.** `Element.getDefinition`, `Params.withFuture` and `Params.toString` are left out. They do not take part in the entry lifecycle.

## Findings

| source | as written | input that shows it | evidently intended | confidence | as-written member | corrected member |
|---|---|---|---|---|---|---|
| core/src/main/java/org/infinispan/container/entries/TransientMortalCacheEntry.java:120-122 | `setValue` returns the max-idle and never stores the value | any entry and any value different from its current one: the entry keeps its old value | store the new value and answer the previous one, as `Map.Entry.setValue` specifies | medium, not executed | TransientMortalEntry.SetValueLosesWrite | TransientMortalEntry.SetValueCorrectedRoundTrip |
