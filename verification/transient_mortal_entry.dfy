/** A cache entry that is both transient (max-idle) and mortal (lifespan):
    its expiry-time arithmetic, its setters and `touch`/`reincarnate`, its
    `equals`, and its six-field externalizer. All four numeric fields are Java
    `long`s; additions wrap around explicitly. */
module TransientMortalEntry {
  import opened Wrappers

  const LONG_MIN: int := -0x8000_0000_0000_0000
  const LONG_MAX: int := 0x7FFF_FFFF_FFFF_FFFF
  const TWO_TO_64: int := 0x1_0000_0000_0000_0000

  type Long = x: int | LONG_MIN <= x <= LONG_MAX

  /** Two's-complement truncation of a mathematical integer to 64 bits. */
  function WrapLong(x: int): (r: Long)
    ensures LONG_MIN <= x <= LONG_MAX ==> r == x
    ensures (r - x) % TWO_TO_64 == 0
  {
    var m := (x - LONG_MIN) % TWO_TO_64;
    m + LONG_MIN
  }

  /** Java `long` addition. */
  function AddLong(a: Long, b: Long): (r: Long)
    ensures LONG_MIN <= a + b <= LONG_MAX ==> r == a + b
  {
    WrapLong(a + b)
  }

  /** The entry: key and value are arbitrary Java objects of type `O`. */
  datatype Entry<O> = Entry(key: O, value: O, created: Long, lifespan: Long, lastUsed: Long, maxIdle: Long)

  /** The public six-argument constructor; note its argument order. */
  function NewEntry<O>(key: O, value: O, maxIdle: Long, lifespan: Long, lastUsed: Long, created: Long): (e: Entry<O>)
    ensures e.key == key && e.value == value
    ensures e.maxIdle == maxIdle && e.lifespan == lifespan
    ensures e.lastUsed == lastUsed && e.created == created
  {
    Entry(key, value, created, lifespan, lastUsed, maxIdle)
  }

  /** The four-argument constructor: `created` is one clock reading, then
      `touch()` stamps `lastUsed` with a second one. */
  function NewEntryAt<O>(key: O, value: O, maxIdle: Long, lifespan: Long, createdClock: Long, touchClock: Long): (e: Entry<O>)
    ensures e.key == key && e.value == value
    ensures e.maxIdle == maxIdle && e.lifespan == lifespan
    ensures e.created == createdClock && e.lastUsed == touchClock
  {
    Touch(Entry(key, value, createdClock, lifespan, touchClock, maxIdle), touchClock)
  }

  /** The two-argument constructor: the same two clock readings, with the
      lifespan and max-idle that `TransientMortalCacheValue`'s two-argument
      constructor chooses; that class is not part of this model, so its
      defaults are parameters. It agrees with the four-argument constructor
      given those defaults. */
  function NewEntryWithDefaultsAt<O>(key: O, value: O, defaultMaxIdle: Long, defaultLifespan: Long,
                                     createdClock: Long, touchClock: Long): (e: Entry<O>)
    ensures e.key == key && e.value == value
    ensures e.maxIdle == defaultMaxIdle && e.lifespan == defaultLifespan
    ensures e.created == createdClock && e.lastUsed == touchClock
    ensures e == NewEntryAt(key, value, defaultMaxIdle, defaultLifespan, createdClock, touchClock)
  {
    Touch(Entry(key, value, createdClock, defaultLifespan, createdClock, defaultMaxIdle), touchClock)
  }

  function Touch<O>(e: Entry<O>, clock: Long): (r: Entry<O>)
    ensures r.lastUsed == clock
    ensures r.(lastUsed := e.lastUsed) == e
  {
    e.(lastUsed := clock)
  }

  function Reincarnate<O>(e: Entry<O>, clock: Long): (r: Entry<O>)
    ensures r.created == clock
    ensures r.(created := e.created) == e
  {
    e.(created := clock)
  }

  function SetLifespan<O>(e: Entry<O>, lifespan: Long): (r: Entry<O>)
    ensures r.lifespan == lifespan
    ensures r.(lifespan := e.lifespan) == e
  {
    e.(lifespan := lifespan)
  }

  function SetMaxIdle<O>(e: Entry<O>, maxIdle: Long): (r: Entry<O>)
    ensures r.maxIdle == maxIdle
    ensures r.(maxIdle := e.maxIdle) == e
  {
    e.(maxIdle := maxIdle)
  }

  /** `setValue` ignores its argument: the entry is unchanged and the call
      answers the entry's max-idle. */
  function SetValue<O>(e: Entry<O>, value: O): (r: (Entry<O>, Long))
    ensures r.0 == e
    ensures r.1 == e.maxIdle
  {
    (e, e.maxIdle)
  }

  /** The write the caller asked for is lost: whenever the new value
      differs from the stored one, the entry still holds the old one. */
  lemma SetValueLosesWrite<O>(e: Entry<O>, value: O)
    requires value != e.value
    ensures SetValue(e, value).0.value != value
  {
  }

  /** `setValue` as the `Map.Entry` contract has it: the entry takes the new
      value and the call answers the previous one. */
  function SetValueCorrected<O>(e: Entry<O>, value: O): (r: (Entry<O>, O))
    ensures r.0.value == value
    ensures r.0.(value := e.value) == e
    ensures r.1 == e.value
  {
    (e.(value := value), e.value)
  }

  /** With the corrected `setValue`, a later read sees the write, and writing
      back the answered value restores the entry. */
  lemma SetValueCorrectedRoundTrip<O>(e: Entry<O>, value: O)
    ensures var (e1, previous) := SetValueCorrected(e, value);
            e1.value == value && SetValueCorrected(e1, previous).0 == e && Equals(e1, e)
  {
  }

  predicate CanExpire<O>(e: Entry<O>) {
    true
  }

  /** -1 means "never": the earlier of the lifespan deadline and the idle
      deadline, each present only when its duration is above -1. */
  function ExpiryTime<O>(e: Entry<O>): Long {
    var lset: Long := if e.lifespan > -1 then AddLong(e.created, e.lifespan) else -1;
    var muet: Long := if e.maxIdle > -1 then AddLong(e.lastUsed, e.maxIdle) else -1;
    if lset == -1 then muet
    else if muet == -1 then lset
    else if lset <= muet then lset else muet
  }

  /** Timestamps are non-negative and neither deadline overflows a `long`. */
  predicate SaneTimes<O>(e: Entry<O>) {
    && e.created >= 0 && e.lastUsed >= 0
    && e.created + e.lifespan <= LONG_MAX
    && e.lastUsed + e.maxIdle <= LONG_MAX
  }

  lemma ExpiryTimeUnbounded<O>(e: Entry<O>)
    requires e.lifespan <= -1 && e.maxIdle <= -1
    ensures ExpiryTime(e) == -1
  {
  }

  lemma ExpiryTimeLifespanOnly<O>(e: Entry<O>)
    requires SaneTimes(e)
    requires e.lifespan >= 0 && e.maxIdle <= -1
    ensures ExpiryTime(e) == e.created + e.lifespan
  {
  }

  lemma ExpiryTimeMaxIdleOnly<O>(e: Entry<O>)
    requires SaneTimes(e)
    requires e.lifespan <= -1 && e.maxIdle >= 0
    ensures ExpiryTime(e) == e.lastUsed + e.maxIdle
  {
  }

  lemma ExpiryTimeBoth<O>(e: Entry<O>)
    requires SaneTimes(e)
    requires e.lifespan >= 0 && e.maxIdle >= 0
    ensures ExpiryTime(e) <= e.created + e.lifespan
    ensures ExpiryTime(e) <= e.lastUsed + e.maxIdle
    ensures ExpiryTime(e) == e.created + e.lifespan || ExpiryTime(e) == e.lastUsed + e.maxIdle
  {
  }

  /** Without the non-negative timestamp assumption the -1 sentinel can be hit
      by a real deadline: a lifespan deadline of exactly -1 is then taken for
      "no lifespan" and the idle deadline wins even though it is later. */
  lemma ExpiryTimeSentinelClash()
    ensures ExpiryTime(Entry(0, 0, -5, 4, 10, 10)) == 20
  {
  }

  /** `equals`: same class, same `created`, same `lifespan`. */
  predicate Equals<O>(a: Entry<O>, b: Entry<O>) {
    a.created == b.created && a.lifespan == b.lifespan
  }

  /** `equals` ignores key, value, max-idle and last-used, and is an
      equivalence relation. */
  lemma EqualsIgnoresOtherFields<O>(e: Entry<O>, key: O, value: O, maxIdle: Long, lastUsed: Long)
    ensures Equals(e, e.(key := key, value := value, maxIdle := maxIdle, lastUsed := lastUsed))
    ensures Equals(e, SetMaxIdle(e, maxIdle)) && Equals(e, Touch(e, lastUsed))
    ensures Equals(e, e)
  {
  }

  lemma EqualsIsEquivalence<O>(a: Entry<O>, b: Entry<O>, c: Entry<O>)
    ensures Equals(a, b) ==> Equals(b, a)
    ensures Equals(a, b) && Equals(b, c) ==> Equals(a, c)
  {
  }

  lemma EqualsCharacterised<O>(a: Entry<O>, b: Entry<O>)
    ensures Equals(a, b) <==> a.created == b.created && a.lifespan == b.lifespan
    ensures !Equals(a, SetLifespan(a, AddLong(a.lifespan, 1)))
    ensures !Equals(a, Reincarnate(a, AddLong(a.created, 1)))
  {
  }

  // ---------------------------------------------------------------------
  // Externalizer

  /** One item of the object stream the externalizer writes: an object, a
      variable-length unsigned long (the unsigned number written), or a plain
      long. */
  datatype Token<O> = ObjectToken(o: O) | UnsignedLongToken(bits: nat) | LongToken(l: Long)

  datatype ReadError = UnexpectedEndOfStream | UnexpectedToken(position: nat)

  /** `UnsignedNumeric.writeUnsignedLong` and `readUnsignedLong`, whose code
      is not part of this model: the unsigned number a `long` is written as,
      and the `long` a number is read back as. */
  datatype UnsignedCodec = UnsignedCodec(write: Long -> nat, read: nat -> Long)

  /** All the externalizer relies on: a non-negative `long`, such as a
      wall-clock timestamp, reads back as it was written. */
  predicate ReadsBackNonNegative(codec: UnsignedCodec) {
    forall x: Long :: x >= 0 ==> codec.read(codec.write(x)) == x
  }

  /** One codec with that property: the `long`'s unsigned 64-bit pattern. */
  function WriteUnsignedLong(x: Long): (bits: nat)
    ensures bits < TWO_TO_64
    ensures (bits - x) % TWO_TO_64 == 0
    ensures x >= 0 ==> bits == x
  {
    if x >= 0 then x else x + TWO_TO_64
  }

  function ReadUnsignedLong(bits: nat): Long {
    WrapLong(bits)
  }

  function PatternCodec(): UnsignedCodec {
    UnsignedCodec((x: Long) => WriteUnsignedLong(x), (bits: nat) => ReadUnsignedLong(bits))
  }

  /** The 64-bit pattern reads back every `long`, negative ones included, so
      it meets what the externalizer relies on. */
  lemma UnsignedLongRoundTrip(x: Long)
    ensures ReadUnsignedLong(WriteUnsignedLong(x)) == x
    ensures ReadsBackNonNegative(PatternCodec())
  {
  }

  /** `writeObject`: key, value, created (unsigned), lifespan, lastUsed
      (unsigned), maxIdle. */
  function WriteEntry<O>(codec: UnsignedCodec, e: Entry<O>): (ts: seq<Token<O>>)
    ensures |ts| == 6
    ensures ts[0] == ObjectToken(e.key) && ts[1] == ObjectToken(e.value)
    ensures ts[2] == UnsignedLongToken(codec.write(e.created))
    ensures ts[3] == LongToken(e.lifespan)
    ensures ts[4] == UnsignedLongToken(codec.write(e.lastUsed))
    ensures ts[5] == LongToken(e.maxIdle)
  {
    [ObjectToken(e.key), ObjectToken(e.value), UnsignedLongToken(codec.write(e.created)),
     LongToken(e.lifespan), UnsignedLongToken(codec.write(e.lastUsed)), LongToken(e.maxIdle)]
  }

  /** The kind of item `readObject` expects at each of the six positions. */
  predicate ExpectedKind<O>(t: Token<O>, i: nat) {
    if i <= 1 then t.ObjectToken?
    else if i == 2 || i == 4 then t.UnsignedLongToken?
    else t.LongToken?
  }

  /** `readObject`: reads the six fields back and calls the six-argument
      constructor; returns the entry and the rest of the stream. */
  function ReadEntry<O>(codec: UnsignedCodec, ts: seq<Token<O>>): (r: Result<(Entry<O>, seq<Token<O>>), ReadError>)
    ensures r.Success? <==> |ts| >= 6 && forall i :: 0 <= i < 6 ==> ExpectedKind(ts[i], i)
    ensures r.Success? ==> r.value.1 == ts[6..]
    ensures r.Success? ==> r.value.0.key == ts[0].o && r.value.0.value == ts[1].o
                           && r.value.0.lifespan == ts[3].l && r.value.0.maxIdle == ts[5].l
    ensures r.Success? ==> r.value.0.created == codec.read(ts[2].bits) && r.value.0.lastUsed == codec.read(ts[4].bits)
    ensures r == Failure(UnexpectedEndOfStream) <==> |ts| < 6
    ensures r.Failure? && r.error.UnexpectedToken? ==>
              r.error.position < 6 <= |ts| && !ExpectedKind(ts[r.error.position], r.error.position)
              && forall i :: 0 <= i < r.error.position ==> ExpectedKind(ts[i], i)
  {
    if |ts| < 6 then Failure(UnexpectedEndOfStream)
    else if !ts[0].ObjectToken? then Failure(UnexpectedToken(0))
    else if !ts[1].ObjectToken? then Failure(UnexpectedToken(1))
    else if !ts[2].UnsignedLongToken? then Failure(UnexpectedToken(2))
    else if !ts[3].LongToken? then Failure(UnexpectedToken(3))
    else if !ts[4].UnsignedLongToken? then Failure(UnexpectedToken(4))
    else if !ts[5].LongToken? then Failure(UnexpectedToken(5))
    else
      var created := codec.read(ts[2].bits);
      var lifespan := ts[3].l;
      var lastUsed := codec.read(ts[4].bits);
      var maxIdle := ts[5].l;
      assert forall i :: 0 <= i < 6 ==> ExpectedKind(ts[i], i);
      Success((NewEntry(ts[0].o, ts[1].o, maxIdle, lifespan, lastUsed, created), ts[6..]))
  }

  /** Reading back what was written restores all six fields and leaves the
      rest of the stream untouched, for timestamps the codec reads back. */
  lemma {:induction false} ExternalizerRoundTrip<O>(codec: UnsignedCodec, e: Entry<O>, rest: seq<Token<O>>)
    requires ReadsBackNonNegative(codec)
    requires e.created >= 0 && e.lastUsed >= 0
    ensures ReadEntry(codec, WriteEntry(codec, e) + rest) == Success((e, rest))
  {
    var ts := WriteEntry(codec, e) + rest;
    assert codec.read(codec.write(e.created)) == e.created;
    assert codec.read(codec.write(e.lastUsed)) == e.lastUsed;
    assert ts[6..] == rest;
  }

  /** With the 64-bit pattern codec the round trip holds for every entry,
      negative timestamps included. */
  lemma {:induction false} ExternalizerRoundTripPattern<O>(e: Entry<O>, rest: seq<Token<O>>)
    ensures ReadEntry(PatternCodec(), WriteEntry(PatternCodec(), e) + rest) == Success((e, rest))
  {
    var ts := WriteEntry(PatternCodec(), e) + rest;
    UnsignedLongRoundTrip(e.created);
    UnsignedLongRoundTrip(e.lastUsed);
    assert ts[6..] == rest;
  }

  /** A stream shorter than six items never yields an entry. */
  lemma ReadEntryNeedsSixTokens<O>(codec: UnsignedCodec, ts: seq<Token<O>>)
    requires |ts| < 6
    ensures ReadEntry(codec, ts) == Failure(UnexpectedEndOfStream)
  {
  }
}
