/** The read-write command on one key with an argument value (command id
    51). On its first execution it pins the entry's value and metadata as
    the "previous" ones, so that a retry still sees what the first attempt
    saw; the value matcher then decides whether the function runs on that
    pinned snapshot or on the live entry. */
module ReadWriteKeyValueCommand {
  import opened Wrappers
  import opened Commands
  import opened WriteKeyCommand

  const COMMAND_ID: int := 51

  datatype ReadWriteKeyValue<O, F> = ReadWriteKeyValue(
    state: KeyCommandState<Option<O>>,
    value: Option<O>,
    f: F,
    prevValue: Option<O>,
    prevMetadata: Option<O>)

  /** What the user function returns, with the entry as it is after the call
      (the function may write through its view). */
  datatype Applied<O> = Applied(ret: Ret<O>, entryAfter: CacheEntry<O>)

  /** The collaborators: the context's lookup, the user function, the value
      matcher's `matches(entry, expected previous, new value)` test, and
      `Flag.copyWithoutRemotableFlags`. */
  datatype Env<!O, !F> = Env(
    lookup: Option<O> -> Option<CacheEntry<O>>,
    apply: (F, Option<O>, EntryView<O>) -> Applied<O>,
    matches: (ValueMatcher, CacheEntry<O>, Option<O>, Option<O>) -> bool,
    stripRemotable: set<Flag> -> set<Flag>)

  datatype Event<O> = LookedUp(key: Option<O>) | AppliedTo(view: EntryView<O>)

  function NewReadWriteKeyValue<O, F>(key: Option<O>, value: Option<O>, f: F, ann: Option<SerializeWith>, id: InvocationId)
    : (r: Result<ReadWriteKeyValue<O, F>, CommandError>)
    ensures r.Success? <==> NewKeyCommand(key, ann, id).Success?
    ensures r.Success? ==> r.value == ReadWriteKeyValue(NewKeyCommand(key, ann, id).value, value, f, None, None)
  {
    match NewKeyCommand(key, ann, id)
    case Success(s) => Success(ReadWriteKeyValue(s, value, f, None, None))
    case Failure(err) => Failure(err)
  }

  /** The previous value and metadata are taken from the entry only while no
      previous value is held and the command is not a retry. */
  function Pin<O, F>(c: ReadWriteKeyValue<O, F>, e: CacheEntry<O>): (r: ReadWriteKeyValue<O, F>)
    ensures r.(prevValue := c.prevValue, prevMetadata := c.prevMetadata) == c
    ensures c.prevValue.Some? || CommandRetry in c.state.flags ==> r == c
    ensures c.prevValue.None? && CommandRetry !in c.state.flags ==> r.prevValue == e.value && r.prevMetadata == e.metadata
  {
    if c.prevValue.None? && CommandRetry !in c.state.flags then c.(prevValue := e.value, prevMetadata := e.metadata)
    else c
  }

  /** `valueUnchanged(e, prev, value) || valueRemoved(e, prev)`. */
  predicate Matched<O, F>(env: Env<O, F>, c: ReadWriteKeyValue<O, F>, e: CacheEntry<O>) {
    || env.matches(c.state.valueMatcher, e, c.prevValue, c.value)
    || env.matches(c.state.valueMatcher, e, c.prevValue, None)
  }

  /** `launderWithCurrentIfReadWriteView`: a returned read-write view becomes
      an immutable view of the entry's current key, value and metadata. */
  function LaunderWithCurrent<O>(e: CacheEntry<O>, ret: Ret<O>): (r: Ret<O>)
    ensures !r.ReadWriteViewRet?
  {
    if ret.ReadWriteViewRet? then ImmutableViewRet(EntryView(e.key, e.value, e.metadata)) else ret
  }

  /** `perform`: the command afterwards, the result (None is null) and the
      events in order. */
  function Perform<O, F>(env: Env<O, F>, c: ReadWriteKeyValue<O, F>)
    : (r: (ReadWriteKeyValue<O, F>, Option<Ret<O>>, seq<Event<O>>))
    ensures r.0.(state := c.state, prevValue := c.prevValue, prevMetadata := c.prevMetadata) == c
    ensures r.0.state.(successful := c.state.successful) == c.state
    ensures r.0.state.successful <==> c.state.successful && c.state.valueMatcher != MatchNever
    ensures c.prevValue.Some? ==> r.0.prevValue == c.prevValue && r.0.prevMetadata == c.prevMetadata
    ensures r.1.Some? <==> c.state.valueMatcher != MatchNever && env.lookup(c.state.key).Some?
  {
    if c.state.valueMatcher == MatchNever then
      (c.(state := c.state.(successful := false)), None, [])
    else
      match env.lookup(c.state.key)
      case None => (c, None, [LookedUp(c.state.key)])
      case Some(e) =>
        var c1 := Pin(c, e);
        if Matched(env, c1, e) then
          var view := EntryView(e.key, c1.prevValue, c1.prevMetadata);
          var out := env.apply(c1.f, c1.value, view);
          (c1, Some(LaunderWithCurrent(out.entryAfter, out.ret)), [LookedUp(c.state.key), AppliedTo(view)])
        else
          var view := EntryView(e.key, e.value, e.metadata);
          (c1, Some(env.apply(c1.f, c1.value, view).ret), [LookedUp(c.state.key), AppliedTo(view)])
  }

  /** `MATCH_NEVER` fails the command before any lookup. */
  lemma PerformMatchNever<O, F>(env: Env<O, F>, c: ReadWriteKeyValue<O, F>)
    requires c.state.valueMatcher == MatchNever
    ensures var (c', ret, events) := Perform(env, c);
            !c'.state.successful && c'.(state := c'.state.(successful := c.state.successful)) == c
            && ret.None? && events == []
  {
  }

  /** A key that is not local yields null and leaves the pinned values (and
      the whole command) unchanged. */
  lemma PerformNotLocal<O, F>(env: Env<O, F>, c: ReadWriteKeyValue<O, F>)
    requires c.state.valueMatcher != MatchNever
    requires env.lookup(c.state.key).None?
    ensures Perform(env, c) == (c, None, [LookedUp(c.state.key)])
  {
  }

  /** Pinning: the entry's value and metadata are captured exactly when no
      previous value is held and the retry flag is absent; a held previous
      value is never overwritten; nothing else in the command changes. */
  lemma PerformPinsPrevious<O, F>(env: Env<O, F>, c: ReadWriteKeyValue<O, F>)
    requires c.state.valueMatcher != MatchNever
    requires env.lookup(c.state.key).Some?
    ensures var c' := Perform(env, c).0;
            var e := env.lookup(c.state.key).value;
            && c'.(prevValue := c.prevValue, prevMetadata := c.prevMetadata) == c
            && (c.prevValue.Some? ==> c'.prevValue == c.prevValue && c'.prevMetadata == c.prevMetadata)
            && (CommandRetry in c.state.flags ==> c'.prevValue == c.prevValue && c'.prevMetadata == c.prevMetadata)
            && (c.prevValue.None? && CommandRetry !in c.state.flags ==>
                  c'.prevValue == e.value && c'.prevMetadata == e.metadata)
  {
  }

  /** Once a non-null previous value is pinned, executing again (a retry, or
      a re-execution against a different entry) keeps it. */
  lemma PinnedValueIsStable<O, F>(env: Env<O, F>, env2: Env<O, F>, c: ReadWriteKeyValue<O, F>)
    requires Perform(env, c).0.prevValue.Some?
    ensures Perform(env2, Perform(env, c).0).0.prevValue == Perform(env, c).0.prevValue
    ensures Perform(env2, Perform(env, c).0).0.prevMetadata == Perform(env, c).0.prevMetadata
  {
  }

  /** The matcher branch: on a match the function sees the pinned snapshot
      and a returned read-write view is laundered with the entry's current
      content; otherwise it sees the live entry and its result is returned
      as is. Either way it runs exactly once. */
  lemma PerformBranches<O, F>(env: Env<O, F>, c: ReadWriteKeyValue<O, F>)
    requires c.state.valueMatcher != MatchNever
    requires env.lookup(c.state.key).Some?
    ensures var (c', ret, events) := Perform(env, c);
            var e := env.lookup(c.state.key).value;
            && |events| == 2 && events[0] == LookedUp(c.state.key) && events[1].AppliedTo?
            && ret.Some?
            && (Matched(env, c', e) ==>
                  var view := EntryView(e.key, c'.prevValue, c'.prevMetadata);
                  var out := env.apply(c.f, c.value, view);
                  && events[1] == AppliedTo(view)
                  && (out.ret.ReadWriteViewRet? ==>
                        ret.value == ImmutableViewRet(EntryView(out.entryAfter.key, out.entryAfter.value, out.entryAfter.metadata)))
                  && (!out.ret.ReadWriteViewRet? ==> ret.value == out.ret))
            && (!Matched(env, c', e) ==>
                  var view := EntryView(e.key, e.value, e.metadata);
                  && events[1] == AppliedTo(view)
                  && ret.value == env.apply(c.f, c.value, view).ret)
  {
  }

  /** `getParameters`: eight slots, nulls kept as nulls. */
  function GetParameters<O, F>(env: Env<O, F>, c: ReadWriteKeyValue<O, F>): (ps: seq<Param<O, F>>)
    ensures |ps| == 8
  {
    [NullableSlot(c.state.key), NullableSlot(c.value), FunctionSlot(c.f), MatcherSlot(c.state.valueMatcher),
     FlagsSlot(env.stripRemotable(c.state.flags)), InvocationIdSlot(c.state.invocationId),
     NullableSlot(c.prevValue), NullableSlot(c.prevMetadata)]
  }

  /** `setParameters`: a foreign command id raises `IllegalStateException`;
      then the eight slots are read in order. */
  function SetParameters<O, F>(c: ReadWriteKeyValue<O, F>, commandId: int, ps: seq<Param<O, F>>)
    : (r: Result<ReadWriteKeyValue<O, F>, CommandError>)
    ensures commandId != COMMAND_ID ==> r == Failure(IllegalState)
    ensures r.Success? <==> commandId == COMMAND_ID && |ps| >= 8 && ps[0].IsNullable() && ps[1].IsNullable()
                            && ps[6].IsNullable() && ps[7].IsNullable()
                            && ps[2].FunctionSlot? && ps[3].MatcherSlot? && ps[4].FlagsSlot? && ps[5].InvocationIdSlot?
    ensures r.Success? ==> r.value.state.successful == c.state.successful
  {
    if commandId != COMMAND_ID then Failure(IllegalState)
    else
      // The key is assigned without a cast: any application object or a null.
      var key :- NullableAt(ps, 0);
      var value :- NullableAt(ps, 1);
      var f :- FunctionAt(ps, 2);
      var vm :- MatcherAt(ps, 3);
      var flags :- FlagsAt(ps, 4);
      var id :- InvocationIdAt(ps, 5);
      var pv :- NullableAt(ps, 6);
      var pm :- NullableAt(ps, 7);
      Success(ReadWriteKeyValue(KeyCommandState(key, vm, flags, id, c.state.successful), value, f, pv, pm))
  }

  /** Decoding what was encoded restores key, value, function, matcher,
      invocation id and the pinned previous value and metadata; the flags
      come back filtered. */
  lemma ParametersRoundTrip<O, F>(env: Env<O, F>, c: ReadWriteKeyValue<O, F>, receiver: ReadWriteKeyValue<O, F>)
    ensures SetParameters(receiver, COMMAND_ID, GetParameters(env, c))
            == Success(c.(state := c.state.(flags := env.stripRemotable(c.state.flags), successful := receiver.state.successful)))
  {
  }

  lemma ShortParametersFail<O, F>(c: ReadWriteKeyValue<O, F>, ps: seq<Param<O, F>>)
    requires |ps| < 8
    ensures SetParameters(c, COMMAND_ID, ps).Failure?
  {
  }

  function IsConditional<O, F>(c: ReadWriteKeyValue<O, F>): (r: bool)
    ensures r
  {
    true
  }
}
