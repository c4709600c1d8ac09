/** The pending-flags state of the Hot Rod client's operations factory.
    Flags set or added by a thread wait in that thread's slot until the next
    operation is created, which consumes them once; a factory configured to
    force return values appends `FORCE_RETURN_VALUE` to every consumed list.
    The thread-local slot is modelled as a map from thread to pending list. */
module OperationsFactory {
  import opened Wrappers

  /** The client flags; only `FORCE_RETURN_VALUE` is told apart here. */
  datatype ClientFlag = ForceReturnValue | OtherClientFlag(name: string)

  datatype Factory<T> = Factory(forceReturnValue: bool, pending: map<T, seq<ClientFlag>>)

  /** Every thread other than `t` keeps its pending list (or its absence). */
  ghost predicate OthersUnchanged<T(!new)>(f: Factory<T>, f': Factory<T>, t: T) {
    && f'.forceReturnValue == f.forceReturnValue
    && (forall u :: u != t ==> (u in f'.pending <==> u in f.pending))
    && (forall u :: u != t && u in f.pending ==> f'.pending[u] == f.pending[u])
  }

  /** `flags()`: the thread's pending list is taken and cleared; the result
      is that list, with `FORCE_RETURN_VALUE` appended when the factory
      forces return values (even if already present), or just that flag
      when nothing was pending; null (None) when nothing was pending and no
      return value is forced. */
  function Flags<T(!new)>(f: Factory<T>, t: T): (r: (Factory<T>, Option<seq<ClientFlag>>))
    ensures t !in r.0.pending
    ensures OthersUnchanged(f, r.0, t)
    ensures f.forceReturnValue ==> r.1.Some? && |r.1.value| > 0 && r.1.value[|r.1.value| - 1] == ForceReturnValue
    ensures r.1.None? <==> !f.forceReturnValue && t !in f.pending
  {
    var list := if t in f.pending then Some(f.pending[t]) else None;
    var f' := f.(pending := f.pending - {t});
    if f.forceReturnValue then
      if list.None? then (f', Some([ForceReturnValue])) else (f', Some(list.value + [ForceReturnValue]))
    else (f', list)
  }

  /** `setFlags`: the thread's pending list becomes a copy of `flags`. */
  function SetFlags<T(!new)>(f: Factory<T>, t: T, flags: seq<ClientFlag>): (f': Factory<T>)
    ensures t in f'.pending && f'.pending[t] == flags
    ensures OthersUnchanged(f, f', t)
  {
    f.(pending := f.pending[t := flags])
  }

  /** `addFlags`: `flags` are appended to the thread's pending list, which
      is created empty when there is none. */
  function AddFlags<T(!new)>(f: Factory<T>, t: T, flags: seq<ClientFlag>): (f': Factory<T>)
    ensures t in f'.pending
    ensures OthersUnchanged(f, f', t)
  {
    var list := if t in f.pending then f.pending[t] else [];
    f.(pending := f.pending[t := list + flags])
  }

  /** `hasFlag`: a pending list exists and holds the flag. Being a function
      of the state, it consumes nothing. */
  function HasFlag<T(!new)>(f: Factory<T>, t: T, flag: ClientFlag): (r: bool) {
    t in f.pending && flag in f.pending[t]
  }

  /** The pending list is consumed exactly once: a second `flags()` with
      nothing set in between sees no pending flags. */
  lemma FlagsConsumesOnce<T(!new)>(f: Factory<T>, t: T)
    ensures var (f1, _) := Flags(f, t);
            var (_, second) := Flags(f1, t);
            && (f.forceReturnValue ==> second == Some([ForceReturnValue]))
            && (!f.forceReturnValue ==> second.None?)
            && !HasFlag(f1, t, ForceReturnValue)
  {
  }

  /** What was set is what the next operation receives, in order, with the
      forced flag appended. */
  lemma SetThenFlags<T(!new)>(f: Factory<T>, t: T, flags: seq<ClientFlag>)
    ensures Flags(SetFlags(f, t, flags), t).1 == Some(if f.forceReturnValue then flags + [ForceReturnValue] else flags)
  {
  }

  /** Adding on top of pending flags extends them; adding twice is adding
      the concatenation; and with nothing pending, adding is setting. */
  lemma AddFlagsAppends<T(!new)>(f: Factory<T>, t: T, xs: seq<ClientFlag>, ys: seq<ClientFlag>)
    ensures t in f.pending ==> AddFlags(f, t, xs).pending[t] == f.pending[t] + xs
    ensures t !in f.pending ==> AddFlags(f, t, xs) == SetFlags(f, t, xs)
    ensures AddFlags(AddFlags(f, t, xs), t, ys) == AddFlags(f, t, xs + ys)
  {
    var list := if t in f.pending then f.pending[t] else [];
    assert list + xs + ys == list + (xs + ys);
    assert [] + xs == xs;
  }

  /** After adding, a flag is pending exactly when it was pending before or
      is among the added ones. */
  lemma HasFlagAfterAdd<T(!new)>(f: Factory<T>, t: T, flags: seq<ClientFlag>, flag: ClientFlag)
    ensures HasFlag(AddFlags(f, t, flags), t, flag) <==> HasFlag(f, t, flag) || flag in flags
  {
  }

  /** `hasFlag` answers for the list the next `flags()` will return: a
      pending flag is in it, and without forced return values nothing else
      is. */
  lemma HasFlagPredictsFlags<T(!new)>(f: Factory<T>, t: T, flag: ClientFlag)
    ensures HasFlag(f, t, flag) ==> Flags(f, t).1.Some? && flag in Flags(f, t).1.value
    ensures !f.forceReturnValue && Flags(f, t).1.Some? && flag in Flags(f, t).1.value ==> HasFlag(f, t, flag)
  {
  }
}
