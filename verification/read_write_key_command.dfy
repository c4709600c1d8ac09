/** The read-write command on one key (command id 50): applies a user
    function to a read-write view of the key's entry, unless the matcher is
    `MATCH_NEVER` or the key is not local. */
module ReadWriteKeyCommand {
  import opened Wrappers
  import opened Commands
  import opened WriteKeyCommand

  const COMMAND_ID: int := 50

  datatype ReadWriteKey<O, F> = ReadWriteKey(state: KeyCommandState<Option<O>>, f: F)

  /** What `perform` consults: the invocation context's entry lookup, the
      user functions' behaviour, and `Flag.copyWithoutRemotableFlags`. */
  datatype Env<!O, !F> = Env(
    lookup: Option<O> -> Option<CacheEntry<O>>,
    apply: (F, EntryView<O>) -> Ret<O>,
    stripRemotable: set<Flag> -> set<Flag>)

  /** What `perform` did, in order. */
  datatype Event<O> = LookedUp(key: Option<O>) | Applied(view: EntryView<O>)

  function NewReadWriteKey<O, F>(key: Option<O>, f: F, ann: Option<SerializeWith>, id: InvocationId)
    : (r: Result<ReadWriteKey<O, F>, CommandError>)
    ensures r.Success? <==> NewKeyCommand(key, ann, id).Success?
    ensures r.Success? ==> r.value == ReadWriteKey(NewKeyCommand(key, ann, id).value, f)
  {
    match NewKeyCommand(key, ann, id)
    case Success(s) => Success(ReadWriteKey(s, f))
    case Failure(err) => Failure(err)
  }

  /** The view `EntryViews.readWrite(e)` hands to the function. */
  function ViewOf<O>(e: CacheEntry<O>): EntryView<O> {
    EntryView(e.key, e.value, e.metadata)
  }

  /** `perform`: returns the command afterwards, the result (None is null)
      and the events. */
  function Perform<O, F>(env: Env<O, F>, c: ReadWriteKey<O, F>): (r: (ReadWriteKey<O, F>, Option<Ret<O>>, seq<Event<O>>))
    ensures r.0.(state := r.0.state.(successful := c.state.successful)) == c
    ensures r.0.state.successful <==> c.state.successful && c.state.valueMatcher != MatchNever
    ensures r.1.Some? <==> c.state.valueMatcher != MatchNever && env.lookup(c.state.key).Some?
    ensures r.1.Some? ==> !r.1.value.ReadWriteViewRet?
  {
    if c.state.valueMatcher == MatchNever then
      (c.(state := c.state.(successful := false)), None, [])
    else
      match env.lookup(c.state.key)
      case None => (c, None, [LookedUp(c.state.key)])
      case Some(e) =>
        var view := ViewOf(e);
        (c, Some(Launder(env.apply(c.f, view))), [LookedUp(c.state.key), Applied(view)])
  }

  /** `MATCH_NEVER` fails the command at once: no lookup, no call, null. */
  lemma PerformMatchNever<O, F>(env: Env<O, F>, c: ReadWriteKey<O, F>)
    requires c.state.valueMatcher == MatchNever
    ensures var (c', ret, events) := Perform(env, c);
            !c'.state.successful && c'.(state := c'.state.(successful := c.state.successful)) == c
            && ret.None? && events == []
  {
  }

  /** A key that is not local yields null without applying the function, and
      the command is left as it was. */
  lemma PerformNotLocal<O, F>(env: Env<O, F>, c: ReadWriteKey<O, F>)
    requires c.state.valueMatcher != MatchNever
    requires env.lookup(c.state.key).None?
    ensures Perform(env, c) == (c, None, [LookedUp(c.state.key)])
  {
  }

  /** Otherwise the function runs exactly once, on a view of the entry, and
      its result comes back laundered: never a read-write view, and
      unchanged unless it was one. */
  lemma PerformApplies<O, F>(env: Env<O, F>, c: ReadWriteKey<O, F>)
    requires c.state.valueMatcher != MatchNever
    requires env.lookup(c.state.key).Some?
    ensures var (c', ret, events) := Perform(env, c);
            var e := env.lookup(c.state.key).value;
            var raw := env.apply(c.f, ViewOf(e));
            && c' == c
            && |events| == 2 && events[1] == Applied(EntryView(e.key, e.value, e.metadata))
            && (forall i :: 0 <= i < |events| && events[i].Applied? ==> i == 1)
            && ret.Some? && !ret.value.ReadWriteViewRet?
            && (raw.ReadWriteViewRet? ==> ret.value == ImmutableViewRet(raw.view))
            && (!raw.ReadWriteViewRet? ==> ret.value == raw)
  {
  }

  /** `getParameters`: key, function, matcher, the flags without the
      remotable ones, invocation id. */
  function GetParameters<O, F>(env: Env<O, F>, c: ReadWriteKey<O, F>): (ps: seq<Param<O, F>>)
    ensures |ps| == 5
  {
    [NullableSlot(c.state.key), FunctionSlot(c.f), MatcherSlot(c.state.valueMatcher),
     FlagsSlot(env.stripRemotable(c.state.flags)), InvocationIdSlot(c.state.invocationId)]
  }

  /** `setParameters`: a foreign command id raises `IllegalStateException`;
      then the slots are read in order. The success flag is not part of the
      encoding and keeps its value. */
  function SetParameters<O, F>(c: ReadWriteKey<O, F>, commandId: int, ps: seq<Param<O, F>>)
    : (r: Result<ReadWriteKey<O, F>, CommandError>)
    ensures commandId != COMMAND_ID ==> r == Failure(IllegalState)
    ensures r.Success? <==> commandId == COMMAND_ID && |ps| >= 5 && ps[0].IsNullable()
                            && ps[1].FunctionSlot? && ps[2].MatcherSlot? && ps[3].FlagsSlot? && ps[4].InvocationIdSlot?
    ensures r.Success? ==> r.value.state.successful == c.state.successful
  {
    if commandId != COMMAND_ID then Failure(IllegalState)
    else
      // The key is assigned without a cast: any application object or a null.
      var key :- NullableAt(ps, 0);
      var f :- FunctionAt(ps, 1);
      var vm :- MatcherAt(ps, 2);
      var flags :- FlagsAt(ps, 3);
      var id :- InvocationIdAt(ps, 4);
      Success(ReadWriteKey(KeyCommandState(key, vm, flags, id, c.state.successful), f))
  }

  /** Decoding what was encoded restores the key, the function, the matcher
      and the invocation id; the flags come back filtered. */
  lemma ParametersRoundTrip<O, F>(env: Env<O, F>, c: ReadWriteKey<O, F>, receiver: ReadWriteKey<O, F>)
    ensures SetParameters(receiver, COMMAND_ID, GetParameters(env, c))
            == Success(c.(state := c.state.(flags := env.stripRemotable(c.state.flags), successful := receiver.state.successful)))
  {
  }

  /** A parameter array too short for the five slots never decodes. */
  lemma ShortParametersFail<O, F>(c: ReadWriteKey<O, F>, ps: seq<Param<O, F>>)
    requires |ps| < 5
    ensures SetParameters(c, COMMAND_ID, ps).Failure?
  {
  }

  /** The command is always conditional. */
  function IsConditional<O, F>(c: ReadWriteKey<O, F>): (r: bool)
    ensures r
  {
    true
  }
}
