/** The L1 invalidation coordinator: remembers which nodes fetched which key
    into their L1 cache, and when keys change, invalidates them on exactly
    those nodes, by broadcast or by unicast depending on a threshold, then
    forgets the requestors of those keys. */
module L1Manager {
  import opened Wrappers

  /** The requestor registry: for each key, the nodes holding it in L1. */
  type Registry<K, A> = map<K, set<A>>

  datatype L1<K, A> = L1(threshold: int, multicastCapable: bool, requestors: Registry<K, A>)

  /** `addRequestor`: the node joins the key's requestor set, created empty
      on first use. */
  function AddRequestor<K(!new), A>(r: Registry<K, A>, key: K, origin: A): (r': Registry<K, A>)
    ensures key in r' && origin in r'[key]
    ensures key in r ==> r[key] <= r'[key]
    ensures r'[key] - {origin} <= (if key in r then r[key] else {})
    ensures forall k :: k != key ==> (k in r' <==> k in r)
    ensures forall k :: k != key && k in r ==> r'[k] == r[k]
  {
    var existing := if key in r then r[key] else {};
    r[key := existing + {origin}]
  }

  /** The union of the requestor sets of `keys`. */
  function RequestorsOf<K(!new), A>(r: Registry<K, A>, keys: seq<K>): set<A> {
    if |keys| == 0 then {}
    else
      var last := keys[|keys| - 1];
      RequestorsOf(r, keys[..|keys| - 1]) + (if last in r then r[last] else {})
  }

  /** A node is a requestor of `keys` exactly when it requested one of them. */
  lemma {:induction false} RequestorsOfCharacterised<K(!new), A>(r: Registry<K, A>, keys: seq<K>, a: A)
    ensures a in RequestorsOf(r, keys) <==> exists i :: 0 <= i < |keys| && keys[i] in r && a in r[keys[i]]
  {
    if |keys| > 0 {
      var n := |keys| - 1;
      RequestorsOfCharacterised(r, keys[..n], a);
      if a in RequestorsOf(r, keys[..n]) {
        var i :| 0 <= i < n && keys[..n][i] in r && a in r[keys[..n][i]];
        assert keys[i] == keys[..n][i];
      }
      if exists i :: 0 <= i < |keys| && keys[i] in r && a in r[keys[i]] {
        var i :| 0 <= i < |keys| && keys[i] in r && a in r[keys[i]];
        if i < n {
          assert keys[..n][i] == keys[i];
        }
      }
    }
  }

  /** `buildInvalidationAddressList`: the requestors of the keys, without
      the originator when there is one. */
  function InvalidationAddresses<K(!new), A>(r: Registry<K, A>, keys: seq<K>, origin: Option<A>): (addrs: set<A>)
    ensures origin.Some? ==> origin.value !in addrs
  {
    var all := RequestorsOf(r, keys);
    if origin.Some? then all - {origin.value} else all
  }

  lemma InvalidationAddressesCharacterised<K(!new), A>(r: Registry<K, A>, keys: seq<K>, origin: Option<A>, a: A)
    ensures a in InvalidationAddresses(r, keys, origin) <==>
              (exists i :: 0 <= i < |keys| && keys[i] in r && a in r[keys[i]]) && origin != Some(a)
  {
    RequestorsOfCharacterised(r, keys, a);
  }

  /** `isUseMulticast`: -1 forces unicast, 0 forces multicast; otherwise a
      transport that cannot multicast unicasts, and one that can multicasts
      when more nodes than the threshold are involved. */
  function IsUseMulticast(threshold: int, multicastCapable: bool, nodes: nat): bool {
    if threshold == -1 then false
    else if threshold == 0 then true
    else if !multicastCapable then false
    else nodes > threshold
  }

  lemma IsUseMulticastCases(threshold: int, multicastCapable: bool, nodes: nat)
    ensures threshold == -1 ==> !IsUseMulticast(threshold, multicastCapable, nodes)
    ensures threshold == 0 ==> IsUseMulticast(threshold, multicastCapable, nodes)
    ensures threshold != -1 && threshold != 0 && !multicastCapable ==> !IsUseMulticast(threshold, multicastCapable, nodes)
    ensures threshold != -1 && threshold != 0 && multicastCapable ==>
              (IsUseMulticast(threshold, multicastCapable, nodes) <==> nodes > threshold)
    ensures IsUseMulticast(threshold, multicastCapable, nodes) ==> threshold == 0 || (multicastCapable && nodes > threshold)
  {
  }

  /** `cleanupRequestors`: the keys leave the registry. */
  function CleanupRequestors<K(!new), A>(r: Registry<K, A>, keys: seq<K>): (r': Registry<K, A>)
    ensures forall i :: 0 <= i < |keys| ==> keys[i] !in r'
    ensures forall k :: k !in keys ==> (k in r' <==> k in r)
    ensures forall k :: k in r' ==> r'[k] == r[k]
  {
    map k | k in r && k !in keys :: r[k]
  }

  /** How the invalidation is sent. */
  datatype Dispatch<A> = Broadcast | Unicast(targets: set<A>)

  /** Where `flushCache` may throw: nowhere, while building the command, or
      in the remote call. */
  datatype FailurePoint = NoFailure | BuildFails | RpcFails

  datatype FlushError<A> = BuildFailed | RpcFailed(attempted: Dispatch<A>)

  /** `flushCache`. The multicast branch builds the command before its
      try/finally, so a failing build skips the cleanup there; the unicast
      branch builds inside it. */
  function FlushCache<K(!new), A>(l: L1<K, A>, keys: seq<K>, origin: Option<A>, failure: FailurePoint)
    : (r: (L1<K, A>, Result<Dispatch<A>, FlushError<A>>))
  {
    var addrs := InvalidationAddresses(l.requestors, keys, origin);
    var cleaned := l.(requestors := CleanupRequestors(l.requestors, keys));
    if IsUseMulticast(l.threshold, l.multicastCapable, |addrs|) then
      if failure == BuildFails then (l, Failure(BuildFailed))
      else if failure == RpcFails then (cleaned, Failure(RpcFailed(Broadcast)))
      else (cleaned, Success(Broadcast))
    else
      if failure == BuildFails then (cleaned, Failure(BuildFailed))
      else if failure == RpcFails then (cleaned, Failure(RpcFailed(Unicast(addrs))))
      else (cleaned, Success(Unicast(addrs)))
  }

  /** After a flush whose command could be built, and in the unicast branch
      even if it could not, none of the flushed keys is left in the
      registry, whether or not the remote call failed; the other keys'
      entries are untouched either way. */
  lemma FlushCacheCleansUp<K(!new), A>(l: L1<K, A>, keys: seq<K>, origin: Option<A>, failure: FailurePoint)
    ensures var (l', _) := FlushCache(l, keys, origin, failure);
            var multicast := IsUseMulticast(l.threshold, l.multicastCapable, |InvalidationAddresses(l.requestors, keys, origin)|);
            && l'.threshold == l.threshold && l'.multicastCapable == l.multicastCapable
            && (failure != BuildFails || !multicast ==> forall i :: 0 <= i < |keys| ==> keys[i] !in l'.requestors)
            && (failure == BuildFails && multicast ==> l' == l)
            && (forall k :: k !in keys ==> (k in l'.requestors <==> k in l.requestors))
            && (forall k :: k !in keys && k in l.requestors ==> l'.requestors[k] == l.requestors[k])
  {
  }

  /** The multicast branch broadcasts; the unicast branch targets exactly
      the computed address list: every requestor of a flushed key except the
      originator. */
  lemma FlushCacheDispatch<K(!new), A>(l: L1<K, A>, keys: seq<K>, origin: Option<A>, failure: FailurePoint)
    ensures var (_, out) := FlushCache(l, keys, origin, failure);
            var addrs := InvalidationAddresses(l.requestors, keys, origin);
            var multicast := IsUseMulticast(l.threshold, l.multicastCapable, |addrs|);
            && (failure == NoFailure ==> out == Success(if multicast then Broadcast else Unicast(addrs)))
            && (failure == RpcFails ==> out == Failure(RpcFailed(if multicast then Broadcast else Unicast(addrs))))
            && (failure == BuildFails ==> out == Failure(BuildFailed))
            && (forall a :: a in addrs <==>
                  (exists i :: 0 <= i < |keys| && keys[i] in l.requestors && a in l.requestors[keys[i]]) && origin != Some(a))
  {
    forall a
      ensures a in InvalidationAddresses(l.requestors, keys, origin) <==> (exists i :: 0 <= i < |keys| && keys[i] in l.requestors && a in l.requestors[keys[i]]) && origin != Some(a)
    {
      InvalidationAddressesCharacterised(l.requestors, keys, origin, a);
    }
  }

  /** A node registered for a key is among the targets of a unicast flush
      of that key, unless it originated the flush. */
  lemma RegisteredRequestorIsInvalidated<K(!new), A>(l: L1<K, A>, key: K, node: A, keys: seq<K>, origin: Option<A>)
    requires key in keys
    requires origin != Some(node)
    ensures node in InvalidationAddresses(AddRequestor(l.requestors, key, node), keys, origin)
  {
    var r := AddRequestor(l.requestors, key, node);
    var i :| 0 <= i < |keys| && keys[i] == key;
    InvalidationAddressesCharacterised(r, keys, origin, node);
  }
}
