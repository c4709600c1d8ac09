/** The invalidation command (command id 6): removes a list of keys from
    memory, one after the other. Its keys are an `Object[]`, so each key is an
    arbitrary object and is modelled as a parameter slot itself; the array
    itself may be null (None). */
module InvalidateCommand {
  import opened Wrappers
  import opened Commands

  const COMMAND_ID: int := 6

  datatype Invalidate<O, F> = Invalidate(invocationId: InvocationId, keys: Option<seq<Param<O, F>>>)

  /** The varargs constructor keeps the array it is given, null included. */
  function NewInvalidate<O, F>(id: InvocationId, keys: Option<seq<Param<O, F>>>): (r: Invalidate<O, F>)
    ensures r.keys == keys && r.invocationId == id
  {
    Invalidate(id, keys)
  }

  /** The collection constructor: a null or empty collection becomes the
      empty array, anything else its elements in iteration order. */
  function NewInvalidateFromCollection<O, F>(id: InvocationId, keys: Option<seq<Param<O, F>>>): (r: Invalidate<O, F>)
    ensures r.keys.Some?
    ensures keys.None? ==> r.keys.value == []
    ensures keys.Some? ==> r.keys.value == keys.value
    ensures r.invocationId == id
  {
    if keys.None? || |keys.value| == 0 then Invalidate(id, Some([])) else Invalidate(id, Some(keys.value))
  }

  /** The keys as a (possibly empty) sequence, null read as empty. */
  function KeyList<O, F>(c: Invalidate<O, F>): seq<Param<O, F>> {
    if c.keys.Some? then c.keys.value else []
  }

  /** `getParameters`: `[id, 0]` for a null or empty array, `[id, 1, k]` for
      one key, and `[id, n, k1, ..., kn]` otherwise. */
  function GetParameters<O, F>(c: Invalidate<O, F>): (ps: seq<Param<O, F>>)
    ensures |ps| == |KeyList(c)| + 2
    ensures ps[0] == InvocationIdSlot(c.invocationId)
    ensures ps[1] == IntSlot(|KeyList(c)|)
    ensures ps[2..] == KeyList(c)
  {
    if c.keys.None? || |c.keys.value| == 0 then
      [InvocationIdSlot(c.invocationId), IntSlot(0)]
    else if |c.keys.value| == 1 then
      [InvocationIdSlot(c.invocationId), IntSlot(1), c.keys.value[0]]
    else
      [InvocationIdSlot(c.invocationId), IntSlot(|c.keys.value|)] + c.keys.value
  }

  /** `(Integer) args[1]` unboxed: null raises `NullPointerException`. */
  function SizeAt<O, F>(ps: seq<Param<O, F>>): (r: Result<int, CommandError>)
    ensures r.Success? <==> |ps| > 1 && ps[1].IntSlot?
    ensures r.Success? ==> r.value == ps[1].i
  {
    if |ps| <= 1 then Failure(IndexOutOfBounds(1))
    else match ps[1]
      case IntSlot(n) => Success(n)
      case NullSlot => Failure(NullPointer)
      case _ => Failure(ClassCast(1))
  }

  /** `setParameters`: a foreign command id raises `IllegalStateException`;
      then the invocation id, the size, and the keys copied after them. A
      negative size cannot allocate the array; too few slots for the keys
      raise an index error. */
  function SetParameters<O, F>(c: Invalidate<O, F>, commandId: int, args: seq<Param<O, F>>)
    : (r: Result<Invalidate<O, F>, CommandError>)
    ensures commandId != COMMAND_ID ==> r == Failure(IllegalState)
    ensures r.Success? <==> commandId == COMMAND_ID && |args| >= 2 && args[0].InvocationIdSlot?
                            && args[1].IntSlot? && args[1].i >= 0 && |args| >= 2 + args[1].i
    ensures r.Success? ==> r.value.invocationId == args[0].id
    ensures r.Success? ==> r.value.keys == Some(args[2..2 + args[1].i])
  {
    if commandId != COMMAND_ID then Failure(IllegalState)
    else
      var id :- InvocationIdAt(args, 0);
      var size :- SizeAt(args);
      if size < 0 then Failure(NegativeArraySize(size))
      else if size == 1 then
        (if |args| <= 2 then Failure(IndexOutOfBounds(2))
         else
           assert args[2..2 + size] == [args[2]];
           Success(Invalidate(id, Some([args[2]]))))
      else if size > 0 then
        (if 2 + size > |args| then Failure(IndexOutOfBounds(|args|)) else Success(Invalidate(id, Some(args[2..2 + size]))))
      else
        assert args[2..2 + size] == [];
        Success(Invalidate(id, Some([])))
  }

  /** Decoding what was encoded restores the invocation id and the exact key
      sequence; a null array comes back as the empty one. */
  lemma ParametersRoundTrip<O, F>(c: Invalidate<O, F>, receiver: Invalidate<O, F>)
    ensures SetParameters(receiver, COMMAND_ID, GetParameters(c)) == Success(Invalidate(c.invocationId, Some(KeyList(c))))
  {
    var ps := GetParameters(c);
    if |KeyList(c)| == 1 {
      assert ps[2..3] == [ps[2]];
    }
    assert ps[2..2 + |KeyList(c)|] == ps[2..];
  }

  /** The size slot decides the length of the decoded array. */
  lemma DecodedLengthIsSize<O, F>(c: Invalidate<O, F>, args: seq<Param<O, F>>)
    requires SetParameters(c, COMMAND_ID, args).Success?
    ensures |SetParameters(c, COMMAND_ID, args).value.keys.value| == args[1].i
  {
  }

  /** `perform`: every key is invalidated, in array order, then null is
      returned. The invalidation of one key (the inherited remove) is
      recorded, not modelled. A null array fails on iteration. */
  method Perform<O, F>(c: Invalidate<O, F>) returns (r: Result<seq<Param<O, F>>, CommandError>)
    ensures c.keys.None? <==> r.Failure?
    ensures r.Failure? ==> r.error == NullPointer
    ensures r.Success? ==> r.value == c.keys.value
  {
    if c.keys.None? {
      return Failure(NullPointer);
    }
    var keys := c.keys.value;
    var invalidated: seq<Param<O, F>> := [];
    var i := 0;
    while i < |keys|
      invariant 0 <= i <= |keys|
      invariant invalidated == keys[..i]
    {
      invalidated := invalidated + [keys[i]];
      i := i + 1;
    }
    assert keys[..i] == keys;
    return Success(invalidated);
  }

  /** The command is dropped while the cache is failed, stopping or
      terminated. */
  function IgnoreCommandOnStatus(status: ComponentStatus): (r: bool)
    ensures r <==> status in {Failed, Stopping, Terminated}
  {
    match status
    case Failed => true
    case Stopping => true
    case Terminated => true
    case _ => false
  }

  /** `getKey` is not supported on a multi-key command. */
  function GetKey<O, F>(c: Invalidate<O, F>): (r: Result<Param<O, F>, CommandError>)
    ensures r == Failure(UnsupportedOperation)
  {
    Failure(UnsupportedOperation)
  }

  /** The affected keys are the keys as a set; the keys to lock are the keys
      as a list. */
  function AffectedKeys<O(==,!new), F(==,!new)>(c: Invalidate<O, F>): (r: Result<set<Param<O, F>>, CommandError>)
    ensures c.keys.None? <==> r.Failure?
    ensures r.Success? ==> forall k :: k in r.value <==> k in c.keys.value
  {
    if c.keys.None? then Failure(NullPointer) else Success(set k | k in c.keys.value)
  }

  function KeysToLock<O, F>(c: Invalidate<O, F>): (r: Result<seq<Param<O, F>>, CommandError>)
    ensures c.keys.None? <==> r.Failure?
    ensures r.Success? ==> r.value == c.keys.value
  {
    if c.keys.None? then Failure(NullPointer) else Success(c.keys.value)
  }
}
