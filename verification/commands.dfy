/** What the functional write commands and the invalidation command share:
    the value matcher and its name lookup, the flags, entry views and the
    laundering of a returned read-write view, and the positional parameter
    array (`Object[]`) with its checked casts. */
module Commands {
  import opened Wrappers

  /** The value matchers a write command can carry. */
  datatype ValueMatcher =
    | MatchAlways
    | MatchExpected
    | MatchExpectedOrNull
    | MatchExpectedOrNew
    | MatchNonNull
    | MatchNever

  /** The enum constant's name. */
  function MatcherName(m: ValueMatcher): string {
    match m
    case MatchAlways => "MATCH_ALWAYS"
    case MatchExpected => "MATCH_EXPECTED"
    case MatchExpectedOrNull => "MATCH_EXPECTED_OR_NULL"
    case MatchExpectedOrNew => "MATCH_EXPECTED_OR_NEW"
    case MatchNonNull => "MATCH_NON_NULL"
    case MatchNever => "MATCH_NEVER"
  }

  datatype CommandError =
    | IllegalState
    | IllegalArgument
    | ClassCast(slot: nat)
    | IndexOutOfBounds(index: int)
    | NegativeArraySize(size: int)
    | NullPointer
    | UnsupportedOperation

  /** `ValueMatcher.valueOf`: the constant with that name, or an
      `IllegalArgumentException`. */
  function ValueMatcherOf(name: string): (r: Result<ValueMatcher, CommandError>)
    ensures r.Success? ==> MatcherName(r.value) == name
    ensures r.Failure? ==> r.error == IllegalArgument
  {
    if name == "MATCH_ALWAYS" then Success(MatchAlways)
    else if name == "MATCH_EXPECTED" then Success(MatchExpected)
    else if name == "MATCH_EXPECTED_OR_NULL" then Success(MatchExpectedOrNull)
    else if name == "MATCH_EXPECTED_OR_NEW" then Success(MatchExpectedOrNew)
    else if name == "MATCH_NON_NULL" then Success(MatchNonNull)
    else if name == "MATCH_NEVER" then Success(MatchNever)
    else Failure(IllegalArgument)
  }

  /** `valueOf` finds every constant by its name, and fails exactly on the
      names no constant carries. */
  lemma ValueMatcherOfName(m: ValueMatcher, name: string)
    ensures ValueMatcherOf(MatcherName(m)) == Success(m)
    ensures ValueMatcherOf(name).Failure? <==> forall m' :: MatcherName(m') != name
  {
  }

  /** A command flag; only `COMMAND_RETRY` is consulted by the code here. */
  datatype Flag = CommandRetry | OtherFlag(name: string)

  /** The lifecycle states of a cache component. */
  datatype ComponentStatus = Instantiated | Initializing | Running | Stopping | Terminated | Failed

  /** A command invocation id (an opaque value object). */
  datatype InvocationId = InvocationId(origin: nat, id: nat)

  /** A cache entry as the invocation context holds it: value and metadata
      may be null. */
  datatype CacheEntry<O> = CacheEntry(key: O, value: Option<O>, metadata: Option<O>)

  /** An entry view handed to or returned by a user function. */
  datatype EntryView<O> = EntryView(key: O, value: Option<O>, metadata: Option<O>)

  /** What a user function returns: an arbitrary object, a read-write entry
      view, or an immutable (laundered) view. */
  datatype Ret<O> = Plain(o: Option<O>) | ReadWriteViewRet(view: EntryView<O>) | ImmutableViewRet(view: EntryView<O>)

  /** `launderIfReadWriteView`: a read-write view is wrapped as an immutable
      view of the same content; anything else is returned as is. */
  function Launder<O>(ret: Ret<O>): (r: Ret<O>)
    ensures !r.ReadWriteViewRet?
    ensures ret.ReadWriteViewRet? ==> r == ImmutableViewRet(ret.view)
    ensures !ret.ReadWriteViewRet? ==> r == ret
  {
    match ret
    case ReadWriteViewRet(v) => ImmutableViewRet(v)
    case _ => ret
  }

  lemma LaunderIdempotent<O>(ret: Ret<O>)
    ensures Launder(Launder(ret)) == Launder(ret)
  {
  }

  /** One slot of a command's `Object[]` parameter array, tagged with the
      runtime class its reader casts to. `ObjectSlot` holds an application
      object (key, value, metadata); `NullSlot` is a null in a slot whose
      reader tests for null. */
  datatype Param<O, F> =
    | ObjectSlot(o: O)
    | NullSlot
    | FunctionSlot(f: F)
    | MatcherSlot(m: ValueMatcher)
    | FlagsSlot(flags: set<Flag>)
    | InvocationIdSlot(id: InvocationId)
    | IntSlot(i: int)
    | BoolSlot(b: bool)
    | KeySetSlot(keys: set<O>)
  {
    /** An application object or a null: what an uncast or nullable read
        accepts. */
    predicate IsNullable() {
      ObjectSlot? || NullSlot?
    }
  }

  /** A nullable application object read back from slot `i`; `parameters[i]`
      out of range raises `ArrayIndexOutOfBoundsException`. This is also the
      uncast read of the read-write commands' key slot. */
  function NullableAt<O, F>(ps: seq<Param<O, F>>, i: nat): (r: Result<Option<O>, CommandError>)
    ensures r.Success? <==> i < |ps| && ps[i].IsNullable()
    ensures r.Success? ==> r.value == if ps[i].ObjectSlot? then Some(ps[i].o) else None
  {
    if i >= |ps| then Failure(IndexOutOfBounds(i))
    else match ps[i]
      case ObjectSlot(o) => Success(Some(o))
      case NullSlot => Success(None)
      case _ => Failure(ClassCast(i))
  }

  /** The nullable object as it is written into a slot. */
  function NullableSlot<O, F>(o: Option<O>): (p: Param<O, F>)
    ensures o.Some? <==> p.ObjectSlot?
    ensures o.Some? ==> p.o == o.value
    ensures o.None? <==> p.NullSlot?
  {
    match o
    case Some(x) => ObjectSlot(x)
    case None => NullSlot
  }

  function FunctionAt<O, F>(ps: seq<Param<O, F>>, i: nat): (r: Result<F, CommandError>)
    ensures r.Success? <==> i < |ps| && ps[i].FunctionSlot?
    ensures r.Success? ==> r.value == ps[i].f
  {
    if i >= |ps| then Failure(IndexOutOfBounds(i))
    else match ps[i]
      case FunctionSlot(f) => Success(f)
      case _ => Failure(ClassCast(i))
  }

  function MatcherAt<O, F>(ps: seq<Param<O, F>>, i: nat): (r: Result<ValueMatcher, CommandError>)
    ensures r.Success? <==> i < |ps| && ps[i].MatcherSlot?
    ensures r.Success? ==> r.value == ps[i].m
  {
    if i >= |ps| then Failure(IndexOutOfBounds(i))
    else match ps[i]
      case MatcherSlot(m) => Success(m)
      case _ => Failure(ClassCast(i))
  }

  function FlagsAt<O, F>(ps: seq<Param<O, F>>, i: nat): (r: Result<set<Flag>, CommandError>)
    ensures r.Success? <==> i < |ps| && ps[i].FlagsSlot?
    ensures r.Success? ==> r.value == ps[i].flags
  {
    if i >= |ps| then Failure(IndexOutOfBounds(i))
    else match ps[i]
      case FlagsSlot(fl) => Success(fl)
      case _ => Failure(ClassCast(i))
  }

  function InvocationIdAt<O, F>(ps: seq<Param<O, F>>, i: nat): (r: Result<InvocationId, CommandError>)
    ensures r.Success? <==> i < |ps| && ps[i].InvocationIdSlot?
    ensures r.Success? ==> r.value == ps[i].id
  {
    if i >= |ps| then Failure(IndexOutOfBounds(i))
    else match ps[i]
      case InvocationIdSlot(id) => Success(id)
      case _ => Failure(ClassCast(i))
  }

  function BoolAt<O, F>(ps: seq<Param<O, F>>, i: nat): (r: Result<bool, CommandError>)
    ensures r.Success? <==> i < |ps| && ps[i].BoolSlot?
    ensures r.Success? ==> r.value == ps[i].b
  {
    if i >= |ps| then Failure(IndexOutOfBounds(i))
    else match ps[i]
      case BoolSlot(b) => Success(b)
      case _ => Failure(ClassCast(i))
  }

  function KeySetAt<O, F>(ps: seq<Param<O, F>>, i: nat): (r: Result<set<O>, CommandError>)
    ensures r.Success? <==> i < |ps| && ps[i].KeySetSlot?
    ensures r.Success? ==> r.value == ps[i].keys
  {
    if i >= |ps| then Failure(IndexOutOfBounds(i))
    else match ps[i]
      case KeySetSlot(ks) => Success(ks)
      case _ => Failure(ClassCast(i))
  }
}
