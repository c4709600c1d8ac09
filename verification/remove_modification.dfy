/** The "remove" modification queued for a cache store: a value object
    holding the (possibly null) key to remove, equal to another remove
    exactly when their keys are equal. The key's own `equals` and `hashCode`
    are parameters. */
module RemoveModification {
  import opened Wrappers

  /** The modification kinds; only `REMOVE` is told apart here. */
  datatype ModificationType = RemoveType | OtherType

  datatype Remove<O> = Remove(key: Option<O>)

  /** What `equals` may be handed: null, a remove, or an object of another
      class. `sameRef` says the argument is this very object. */
  datatype Candidate<O> = NullRef | RemoveRef(r: Remove<O>, sameRef: bool) | OtherClass

  /** The key class's `equals` and `hashCode`. */
  datatype KeyOps<!O> = KeyOps(equals: (O, O) -> bool, hash: O -> int)

  /** The `equals`/`hashCode` contract of the key class. */
  ghost predicate Lawful<O(!new)>(ops: KeyOps<O>) {
    && (forall x :: ops.equals(x, x))
    && (forall x, y :: ops.equals(x, y) ==> ops.equals(y, x))
    && (forall x, y, z :: ops.equals(x, y) && ops.equals(y, z) ==> ops.equals(x, z))
    && (forall x, y :: ops.equals(x, y) ==> ops.hash(x) == ops.hash(y))
  }

  function GetType<O>(m: Remove<O>): (t: ModificationType)
    ensures t == RemoveType
  {
    RemoveType
  }

  /** `getKey`: the key given at construction. */
  function GetKey<O>(m: Remove<O>): (k: Option<O>)
    ensures Remove(k) == m
  {
    m.key
  }

  /** Null-safe key equality: two null keys are equal, a null and a
      non-null key are not, two non-null keys are compared by `equals`. */
  predicate KeysEqual<O>(ops: KeyOps<O>, a: Option<O>, b: Option<O>) {
    if a.Some? then b.Some? && ops.equals(a.value, b.value) else b.None?
  }

  /** `equals`: the same object, or a remove with an equal key. */
  function Equals<O>(ops: KeyOps<O>, m: Remove<O>, o: Candidate<O>): (r: bool)
    ensures o.NullRef? || o.OtherClass? ==> !r
    ensures o.RemoveRef? && !o.sameRef ==> (r <==> KeysEqual(ops, m.key, o.r.key))
  {
    match o
    case NullRef => false
    case OtherClass => false
    case RemoveRef(other, sameRef) => sameRef || KeysEqual(ops, m.key, other.key)
  }

  /** `hashCode`: 0 for a null key, the key's hash otherwise. */
  function HashCode<O>(ops: KeyOps<O>, m: Remove<O>): (h: int)
    ensures m.key.None? ==> h == 0
    ensures m.key.Some? ==> h == ops.hash(m.key.value)
  {
    if m.key.Some? then ops.hash(m.key.value) else 0
  }

  /** With a lawful key class, equal removes have equal hashes, and the
      identity shortcut agrees with comparing the keys. */
  lemma EqualRemovesHashAlike<O(!new)>(ops: KeyOps<O>, m: Remove<O>, other: Remove<O>, sameRef: bool)
    requires Lawful(ops)
    requires sameRef ==> other == m
    ensures Equals(ops, m, RemoveRef(other, sameRef)) ==> HashCode(ops, m) == HashCode(ops, other)
    ensures Equals(ops, m, RemoveRef(other, sameRef)) <==> KeysEqual(ops, m.key, other.key)
  {
  }

  /** With a lawful key class, remove equality is an equivalence. */
  lemma EqualsIsEquivalence<O(!new)>(ops: KeyOps<O>, a: Remove<O>, b: Remove<O>, c: Remove<O>)
    requires Lawful(ops)
    ensures Equals(ops, a, RemoveRef(a, false))
    ensures Equals(ops, a, RemoveRef(b, false)) ==> Equals(ops, b, RemoveRef(a, false))
    ensures Equals(ops, a, RemoveRef(b, false)) && Equals(ops, b, RemoveRef(c, false)) ==> Equals(ops, a, RemoveRef(c, false))
  {
  }
}
