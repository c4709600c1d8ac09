/** The write-only command over a set of keys (command id 56): the consumer
    runs on a write-only view of every key that is local, and the result
    holds one null per such key. */
module WriteOnlyManyCommand {
  import opened Wrappers
  import opened Commands

  const COMMAND_ID: int := 56

  datatype WriteOnlyMany<O, F> = WriteOnlyMany(keys: set<O>, f: F, isForwarded: bool)

  /** The constructor from a key set and a consumer. */
  function NewWriteOnlyMany<O, F>(keys: set<O>, f: F): (r: WriteOnlyMany<O, F>)
    ensures r.keys == keys && r.f == f && !r.isForwarded
  {
    WriteOnlyMany(keys, f, false)
  }

  /** The copy constructor: same keys and consumer; `isForwarded` starts
      out false as in any fresh command. */
  function CopyOf<O, F>(c: WriteOnlyMany<O, F>): (r: WriteOnlyMany<O, F>)
    ensures r.keys == c.keys && r.f == c.f && !r.isForwarded
  {
    WriteOnlyMany(GetKeys(c), c.f, false)
  }

  function GetKeys<O, F>(c: WriteOnlyMany<O, F>): set<O> {
    c.keys
  }

  function SetKeys<O, F>(c: WriteOnlyMany<O, F>, keys: set<O>): (r: WriteOnlyMany<O, F>)
    ensures r.(keys := c.keys) == c
  {
    c.(keys := keys)
  }

  lemma KeysAccessors<O, F>(c: WriteOnlyMany<O, F>, keys: set<O>)
    ensures GetKeys(SetKeys(c, keys)) == keys
    ensures SetKeys(c, GetKeys(c)) == c
  {
  }

  /** The keys of `keys` that the context holds. */
  function LocalKeys<O>(lookup: O -> Option<CacheEntry<O>>, keys: set<O>): set<O> {
    set k | k in keys && lookup(k).Some?
  }

  /** The keys of `s` that the context holds, in the order of `s`. */
  function LocalInOrder<O>(lookup: O -> Option<CacheEntry<O>>, s: seq<O>): seq<O> {
    if s == [] then []
    else LocalInOrder(lookup, s[..|s| - 1]) + (if lookup(s[|s| - 1]).Some? then [s[|s| - 1]] else [])
  }

  /** Extending the sequence by one key extends the local keys by it when
      the context holds it. */
  lemma LocalInOrderSnoc<O>(lookup: O -> Option<CacheEntry<O>>, s: seq<O>, k: O)
    ensures LocalInOrder(lookup, s + [k]) == LocalInOrder(lookup, s) + (if lookup(k).Some? then [k] else [])
  {
    assert (s + [k])[..|s|] == s;
  }

  /** `perform`. The set's iteration order is `order` (every key once). The
      consumer's calls are recorded as the keys it was applied to; the
      returned list holds one null (None) per local key. */
  method Perform<O, F>(lookup: O -> Option<CacheEntry<O>>, c: WriteOnlyMany<O, F>, order: seq<O>)
    returns (applied: seq<O>, nulls: seq<Option<O>>)
    requires forall i, j :: 0 <= i < j < |order| ==> order[i] != order[j]
    requires forall k :: k in c.keys <==> k in order
    ensures |nulls| == |applied|
    ensures forall i :: 0 <= i < |nulls| ==> nulls[i].None?
    ensures forall k :: multiset(applied)[k] == if k in LocalKeys(lookup, c.keys) then 1 else 0
    ensures |applied| == |LocalKeys(lookup, c.keys)|
    ensures applied == LocalInOrder(lookup, order)
  {
    applied := [];
    nulls := [];
    var i := 0;
    while i < |order|
      invariant 0 <= i <= |order|
      invariant |nulls| == |applied|
      invariant forall j :: 0 <= j < |nulls| ==> nulls[j].None?
      invariant applied == LocalInOrder(lookup, order[..i])
    {
      var k := order[i];
      assert order[..i + 1] == order[..i] + [k];
      LocalInOrderSnoc(lookup, order[..i], k);
      if lookup(k).Some? {
        applied := applied + [k];
        nulls := nulls + [None];
      }
      i := i + 1;
    }
    assert order[..i] == order;
    LocalInOrderCounts(lookup, order);
    assert forall k :: k in LocalKeys(lookup, c.keys) <==> k in order && lookup(k).Some?;
    CountOfLocalKeys(lookup, c.keys, applied);
  }

  /** Over a sequence without repetitions, every key the context holds is
      picked once and every other key never. */
  lemma {:induction false} LocalInOrderCounts<O>(lookup: O -> Option<CacheEntry<O>>, s: seq<O>)
    requires forall i, j :: 0 <= i < j < |s| ==> s[i] != s[j]
    ensures forall k :: multiset(LocalInOrder(lookup, s))[k] == if k in s && lookup(k).Some? then 1 else 0
  {
    if s != [] {
      var p := s[..|s| - 1];
      var last := s[|s| - 1];
      assert s == p + [last];
      LocalInOrderCounts(lookup, p);
      LocalInOrderSnoc(lookup, p, last);
      assert last !in p by {
        forall i | 0 <= i < |p| ensures p[i] != last {
          assert s[i] == p[i];
        }
      }
    }
  }

  /** A sequence that holds each local key once and nothing else is as long
      as the set of local keys. */
  lemma CountOfLocalKeys<O>(lookup: O -> Option<CacheEntry<O>>, keys: set<O>, applied: seq<O>)
    requires forall k :: multiset(applied)[k] == if k in LocalKeys(lookup, keys) then 1 else 0
    ensures |applied| == |LocalKeys(lookup, keys)|
  {
    var ms := multiset(applied);
    assert ms == multiset(LocalKeys(lookup, keys));
    assert |ms| == |applied|;
  }

  /** `getParameters`: the key set, the consumer, `isForwarded`. */
  function GetParameters<O, F>(c: WriteOnlyMany<O, F>): (ps: seq<Param<O, F>>)
    ensures |ps| == 3
  {
    [KeySetSlot(c.keys), FunctionSlot(c.f), BoolSlot(c.isForwarded)]
  }

  /** `setParameters`: the command id is not checked. */
  function SetParameters<O, F>(c: WriteOnlyMany<O, F>, commandId: int, ps: seq<Param<O, F>>)
    : (r: Result<WriteOnlyMany<O, F>, CommandError>)
    ensures r.Success? <==> |ps| >= 3 && ps[0].KeySetSlot? && ps[1].FunctionSlot? && ps[2].BoolSlot?
  {
    var keys :- KeySetAt(ps, 0);
    var f :- FunctionAt(ps, 1);
    var fwd :- BoolAt(ps, 2);
    Success(WriteOnlyMany(keys, f, fwd))
  }

  /** Decoding what was encoded gives back the command, whatever id is
      passed. */
  lemma ParametersRoundTrip<O, F>(c: WriteOnlyMany<O, F>, receiver: WriteOnlyMany<O, F>, commandId: int)
    ensures SetParameters(receiver, commandId, GetParameters(c)) == Success(c)
  {
  }

  /** The command only writes, and its caller expects no return value. */
  function IsWriteOnly<O, F>(c: WriteOnlyMany<O, F>): (r: bool)
    ensures r
  {
    true
  }

  function IsReturnValueExpected<O, F>(c: WriteOnlyMany<O, F>): (r: bool)
    ensures !r
  {
    false
  }

  /** The command never blocks. */
  function CanBlock<O, F>(c: WriteOnlyMany<O, F>): (r: bool)
    ensures !r
  {
    false
  }

  /** `getAffectedKeys` answers null (None), even though the command has
      keys. */
  function AffectedKeys<O, F>(c: WriteOnlyMany<O, F>): (r: Option<set<O>>)
    ensures r.None?
  {
    None
  }

  /** Unlike the invalidation command, this one is never dropped, whatever
      the cache's status. */
  function IgnoreCommandOnStatus(status: ComponentStatus): (r: bool)
    ensures !r
  {
    false
  }
}
