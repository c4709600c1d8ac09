/** The elements of the Infinispan server subsystem's XML schema, and the
    lookup of an element by its local name. An element is its enum ordinal;
    `UNKNOWN` comes first and has no name; the other elements are named by
    the schema's model keys (a parameter here), except two deprecated ones
    named by literals. */
module SubsystemElement {
  import opened Wrappers

  /** An enum constant, identified by its position in declaration order. */
  newtype Element = i: int | 0 <= i < 64

  const UNKNOWN: Element := 0
  const ALIAS: Element := 1
  const AUTHORIZATION: Element := 2
  const BACKUP: Element := 3
  const BACKUPS: Element := 4
  const BACKUP_FOR: Element := 5
  const BINARY_KEYED_TABLE: Element := 6
  const BUCKET_TABLE: Element := 7
  const CACHE_CONTAINER: Element := 8
  const CONNECTION_POOL: Element := 9
  const CLUSTER_LOADER: Element := 10
  const COMPATIBILITY: Element := 11
  const COMPRESSION: Element := 12
  const COMMON_NAME_ROLE_MAPPER: Element := 13
  const CLUSTER_ROLE_MAPPER: Element := 14
  const CUSTOM_ROLE_MAPPER: Element := 15
  const DATA_COLUMN: Element := 16
  const DISTRIBUTED_CACHE: Element := 17
  const DISTRIBUTED_CACHE_CONFIGURATION: Element := 18
  const ENTRY_TABLE: Element := 19
  const EVICTION: Element := 20
  const EXPIRATION: Element := 21
  const FILE_STORE: Element := 22
  const ID_COLUMN: Element := 23
  const IDENTITY_ROLE_MAPPER: Element := 24
  const INVALIDATION_CACHE: Element := 25
  const INVALIDATION_CACHE_CONFIGURATION: Element := 26
  const LEVELDB_STORE: Element := 27
  const JDBC_STORE: Element := 28
  const STRING_KEYED_JDBC_STORE: Element := 29
  const BINARY_KEYED_JDBC_STORE: Element := 30
  const MIXED_KEYED_JDBC_STORE: Element := 31
  const IMPLEMENTATION: Element := 32
  const INDEXING: Element := 33
  const LOADER: Element := 34
  const LOCAL_CACHE: Element := 35
  const LOCAL_CACHE_CONFIGURATION: Element := 36
  const LOCKING: Element := 37
  const PARTITION_HANDLING: Element := 38
  const PROPERTY: Element := 39
  const REHASHING: Element := 40
  const REMOTE_SERVER: Element := 41
  const REMOTE_STORE: Element := 42
  const REPLICATED_CACHE: Element := 43
  const REPLICATED_CACHE_CONFIGURATION: Element := 44
  const REST_STORE: Element := 45
  const ROLE: Element := 46
  const SECURITY: Element := 47
  const STATE_TRANSFER: Element := 48
  const STORE: Element := 49
  const STRING_KEYED_TABLE: Element := 50
  const TAKE_OFFLINE: Element := 51
  const TIMESTAMP_COLUMN: Element := 52
  const TRANSACTION: Element := 53
  const TRANSPORT: Element := 54
  const WRITE_BEHIND: Element := 55
  const ASYNC_OPERATIONS_THREAD_POOL: Element := 56
  const EXPIRATION_THREAD_POOL: Element := 57
  const LISTENER_THREAD_POOL: Element := 58
  const PERSISTENCE_THREAD_POOL: Element := 59
  const REMOTE_COMMAND_THREAD_POOL: Element := 60
  const REPLICATION_QUEUE_THREAD_POOL: Element := 61
  const STATE_TRANSFER_THREAD_POOL: Element := 62
  const TRANSPORT_THREAD_POOL: Element := 63

  /** `values()`: the constants in declaration order, `UNKNOWN` first. */
  function Values(): (vs: seq<Element>)
    ensures |vs| == 64 && vs[0] == UNKNOWN
    ensures forall i :: 0 <= i < |vs| ==> vs[i] as int == i
  {
    seq(64, i requires 0 <= i < 64 => i as Element)
  }

  /** Every constant is one of the values. */
  lemma InValues(e: Element)
    ensures e in Values()
  {
    assert Values()[e as int] == e;
  }

  /** `getLocalName`: the name the constant was declared with; `UNKNOWN`
      was declared with null, `JDBC_STORE` and `REHASHING` with literals,
      and the others with their model key's XML name. */
  function LocalName(modelKey: Element -> string, e: Element): (r: Option<string>)
    ensures r.None? <==> e == UNKNOWN
    ensures e == JDBC_STORE ==> r == Some("jdbc-store")
    ensures e == REHASHING ==> r == Some("rehashing")
    ensures e != UNKNOWN && e != JDBC_STORE && e != REHASHING ==> r == Some(modelKey(e))
  {
    if e == UNKNOWN then None
    else if e == JDBC_STORE then Some("jdbc-store")
    else if e == REHASHING then Some("rehashing")
    else Some(modelKey(e))
  }

  /** The static initializer's loop: each named constant is put under its
      name, in order, so a later constant would replace an earlier one of
      the same name. */
  function BuildElements(modelKey: Element -> string, vs: seq<Element>): (m: map<string, Element>)
    ensures forall n :: n in m ==> m[n] in vs && LocalName(modelKey, m[n]) == Some(n)
    ensures forall i :: 0 <= i < |vs| && LocalName(modelKey, vs[i]).Some? ==> LocalName(modelKey, vs[i]).value in m
  {
    if |vs| == 0 then map[]
    else
      var m := BuildElements(modelKey, vs[..|vs| - 1]);
      var e := vs[|vs| - 1];
      match LocalName(modelKey, e)
      case None => m
      case Some(name) => m[name := e]
  }

  /** The `elements` map. */
  function Elements(modelKey: Element -> string): map<string, Element> {
    BuildElements(modelKey, Values())
  }

  /** `forName`: the element with that local name, or `UNKNOWN`. A null
      name (None) finds nothing. */
  function ForName(modelKey: Element -> string, localName: Option<string>): Element {
    var m := Elements(modelKey);
    if localName.Some? && localName.value in m then m[localName.value] else UNKNOWN
  }

  /** `UNKNOWN` is never entered into the map. */
  lemma UnknownIsNotMapped(modelKey: Element -> string)
    ensures UNKNOWN !in Elements(modelKey).Values
  {
  }

  /** A name no element carries, and the null name, look up to `UNKNOWN`. */
  lemma ForNameFallsBackToUnknown(modelKey: Element -> string, n: string)
    ensures ForName(modelKey, None) == UNKNOWN
    ensures (forall e :: LocalName(modelKey, e) != Some(n)) ==> ForName(modelKey, Some(n)) == UNKNOWN
  {
  }

  /** A found element carries the name it was looked up by; and every name
      some element carries finds an element. */
  lemma ForNameFindsNamed(modelKey: Element -> string, n: string, e: Element)
    ensures ForName(modelKey, Some(n)) != UNKNOWN ==> LocalName(modelKey, ForName(modelKey, Some(n))) == Some(n)
    ensures LocalName(modelKey, e) == Some(n) ==> ForName(modelKey, Some(n)) != UNKNOWN
  {
    if LocalName(modelKey, e) == Some(n) {
      InValues(e);
      var i :| 0 <= i < |Values()| && Values()[i] == e;
    }
  }

  /** The names are distinct, as the schema intends. */
  ghost predicate DistinctNames(modelKey: Element -> string) {
    forall e1, e2 :: e1 != e2 && LocalName(modelKey, e1).Some? ==> LocalName(modelKey, e1) != LocalName(modelKey, e2)
  }

  /** With distinct names, looking an element up by its own local name
      gives it back. */
  lemma ForNameOfLocalName(modelKey: Element -> string, e: Element)
    requires DistinctNames(modelKey)
    requires e != UNKNOWN
    ensures ForName(modelKey, LocalName(modelKey, e)) == e
  {
    ForNameFindsNamed(modelKey, LocalName(modelKey, e).value, e);
  }
}
