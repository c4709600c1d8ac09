/** The state every single-key functional write command shares: its key, its
    value matcher (taken from the user function's `SerializeWith`
    annotation), its flags, its invocation id and its `successful` flag. */
module WriteKeyCommand {
  import opened Wrappers
  import opened Commands

  /** The `SerializeWith` annotation on the function's class, reduced to the
      name of the value matcher it declares. */
  datatype SerializeWith = SerializeWith(valueMatcherName: string)

  /** The annotation's `valueMatcher()` default. */
  const DEFAULT_VALUE_MATCHER_NAME: string := "MATCH_ALWAYS"

  datatype KeyCommandState<O> = KeyCommandState(
    key: O,
    valueMatcher: ValueMatcher,
    flags: set<Flag>,
    invocationId: InvocationId,
    successful: bool)

  /** The constructor: no annotation means `MATCH_ALWAYS`; otherwise the
      matcher named by the annotation, where an unknown name raises
      `IllegalArgumentException`. A fresh command is successful and has no
      flags. */
  function NewKeyCommand<O>(key: O, ann: Option<SerializeWith>, id: InvocationId): (r: Result<KeyCommandState<O>, CommandError>)
    ensures ann.None? ==> r == Success(KeyCommandState(key, MatchAlways, {}, id, true))
    ensures ann.Some? ==> (r.Success? <==> exists m :: MatcherName(m) == ann.value.valueMatcherName)
    ensures ann.Some? && r.Success? ==> MatcherName(r.value.valueMatcher) == ann.value.valueMatcherName
    ensures r.Success? ==> r.value.key == key && r.value.invocationId == id && r.value.flags == {} && r.value.successful
    ensures r.Failure? ==> r.error == IllegalArgument
  {
    var vm: Result<ValueMatcher, CommandError> :=
      if ann.Some? then ValueMatcherOf(ann.value.valueMatcherName) else Success(MatchAlways);
    match vm
    case Success(m) =>
      ValueMatcherSound(ann);
      Success(KeyCommandState(key, m, {}, id, true))
    case Failure(err) =>
      ValueMatcherSound(ann);
      Failure(err)
  }

  lemma ValueMatcherSound(ann: Option<SerializeWith>)
    ensures ann.Some? ==> (ValueMatcherOf(ann.value.valueMatcherName).Success? <==> exists m :: MatcherName(m) == ann.value.valueMatcherName)
  {
    if ann.Some? {
      var name := ann.value.valueMatcherName;
      if ValueMatcherOf(name).Success? {
        assert MatcherName(ValueMatcherOf(name).value) == name;
      } else {
        ValueMatcherOfName(MatchAlways, name);
      }
    }
  }

  /** An annotation that keeps the default matcher is the same as no
      annotation. */
  lemma DefaultAnnotationIsMatchAlways<O>(key: O, id: InvocationId)
    ensures NewKeyCommand(key, Some(SerializeWith(DEFAULT_VALUE_MATCHER_NAME)), id) == NewKeyCommand(key, None, id)
  {
  }

  function GetValueMatcher<O>(c: KeyCommandState<O>): ValueMatcher {
    c.valueMatcher
  }

  function SetValueMatcher<O>(c: KeyCommandState<O>, m: ValueMatcher): (r: KeyCommandState<O>)
    ensures r.(valueMatcher := c.valueMatcher) == c
  {
    c.(valueMatcher := m)
  }

  function IsSuccessful<O>(c: KeyCommandState<O>): bool {
    c.successful
  }

  /** The matcher accessors: what is set is what is read back, and setting
      the matcher leaves the success flag alone. */
  lemma ValueMatcherAccessors<O>(c: KeyCommandState<O>, m: ValueMatcher)
    ensures GetValueMatcher(SetValueMatcher(c, m)) == m
    ensures SetValueMatcher(c, GetValueMatcher(c)) == c
    ensures IsSuccessful(SetValueMatcher(c, m)) == IsSuccessful(c)
  {
  }
}
