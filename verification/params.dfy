/** The parameter collection of the functional map API: an array indexed by
    each parameter's id, starting from an array of defaults, and copied
    (never mutated) when parameters are added. */
module FunctionalParams {
  import opened Wrappers

  /** The parameter kinds: `id` is `Param.id()`, `defaults` is the static
      `DEFAULTS` array. A well-formed registry keeps each default at its own
      id. */
  datatype Registry<!P> = Registry(id: P -> int, defaults: seq<P>)

  ghost predicate WellFormed<P>(reg: Registry<P>) {
    forall k :: 0 <= k < |reg.defaults| ==> reg.id(reg.defaults[k]) == k
  }

  datatype Params<P> = Params(params: seq<P>)

  datatype ParamsError = ArrayIndexOutOfBounds(index: int)

  /** `create`: the defaults. */
  function Create<P>(reg: Registry<P>): (r: Params<P>)
    ensures |r.params| == |reg.defaults|
    ensures forall k :: 0 <= k < |r.params| ==> r.params[k] == reg.defaults[k]
  {
    Params(reg.defaults)
  }

  /** Every id of `ps` indexes a slot of an array of length `n`. */
  predicate IdsInRange<P>(id: P -> int, ps: seq<P>, n: nat) {
    forall i :: 0 <= i < |ps| ==> 0 <= id(ps[i]) < n
  }

  /** `paramsAll[p.id()] = p` for each p in order, on a copy of `arr`; the
      first p whose id is out of range raises the index error. */
  function Override<P>(id: P -> int, arr: seq<P>, ps: seq<P>): (r: Result<seq<P>, ParamsError>)
    ensures r.Success? <==> IdsInRange(id, ps, |arr|)
    ensures r.Success? ==> |r.value| == |arr|
    ensures r.Failure? ==> exists i :: 0 <= i < |ps| && r.error == ArrayIndexOutOfBounds(id(ps[i])) && !(0 <= id(ps[i]) < |arr|)
  {
    if |ps| == 0 then Success(arr)
    else
      var n := |ps| - 1;
      match Override(id, arr, ps[..n])
      case Failure(err) => Failure(err)
      case Success(a) =>
        var k := id(ps[n]);
        if 0 <= k < |a| then Success(a[k := ps[n]]) else Failure(ArrayIndexOutOfBounds(k))
  }

  /** The last write wins: a slot named by no parameter keeps its value, and
      a slot named by some parameters holds the last of them. */
  lemma {:induction false} OverrideLastWins<P>(id: P -> int, arr: seq<P>, ps: seq<P>, j: int)
    requires IdsInRange(id, ps, |arr|)
    requires 0 <= j < |arr|
    ensures (forall i :: 0 <= i < |ps| ==> id(ps[i]) != j) ==> Override(id, arr, ps).value[j] == arr[j]
    ensures forall i :: 0 <= i < |ps| && id(ps[i]) == j && (forall i' :: i < i' < |ps| ==> id(ps[i']) != j)
              ==> Override(id, arr, ps).value[j] == ps[i]
  {
    if forall i :: 0 <= i < |ps| ==> id(ps[i]) != j {
      OverrideUntouched(id, arr, ps, j);
    }
    forall i | 0 <= i < |ps| && id(ps[i]) == j && (forall i' :: i < i' < |ps| ==> id(ps[i']) != j)
      ensures Override(id, arr, ps).value[j] == ps[i]
    {
      OverrideLastWriter(id, arr, ps, j, i);
    }
  }

  /** Ids in range for a sequence are in range for its prefixes. */
  lemma IdsInRangePrefix<P>(id: P -> int, ps: seq<P>, n: nat, k: nat)
    requires IdsInRange(id, ps, n)
    requires k <= |ps|
    ensures IdsInRange(id, ps[..k], n)
  {
    forall i | 0 <= i < k ensures 0 <= id(ps[..k][i]) < n {
      assert ps[..k][i] == ps[i];
    }
  }

  /** A slot no parameter names keeps its value. */
  lemma {:induction false} OverrideUntouched<P>(id: P -> int, arr: seq<P>, ps: seq<P>, j: int)
    requires IdsInRange(id, ps, |arr|)
    requires 0 <= j < |arr|
    requires forall i :: 0 <= i < |ps| ==> id(ps[i]) != j
    ensures Override(id, arr, ps).value[j] == arr[j]
  {
    if |ps| > 0 {
      var n := |ps| - 1;
      IdsInRangePrefix(id, ps, |arr|, n);
      forall i | 0 <= i < n ensures id(ps[..n][i]) != j {
        assert ps[..n][i] == ps[i];
      }
      OverrideUntouched(id, arr, ps[..n], j);
    }
  }

  /** A slot holds the last parameter that names it. */
  lemma {:induction false} OverrideLastWriter<P>(id: P -> int, arr: seq<P>, ps: seq<P>, j: int, i: int)
    requires IdsInRange(id, ps, |arr|)
    requires 0 <= i < |ps| && id(ps[i]) == j
    requires forall i' :: i < i' < |ps| ==> id(ps[i']) != j
    ensures Override(id, arr, ps).value[j] == ps[i]
  {
    var n := |ps| - 1;
    IdsInRangePrefix(id, ps, |arr|, n);
    if i < n {
      assert ps[..n][i] == ps[i];
      forall i' | i < i' < n ensures id(ps[..n][i']) != j {
        assert ps[..n][i'] == ps[i'];
      }
      OverrideLastWriter(id, arr, ps[..n], j, i);
    }
  }

  /** `addAll`: a new collection with the parameters written over a copy of
      the current array. */
  function AddAll<P>(reg: Registry<P>, c: Params<P>, ps: seq<P>): (r: Result<Params<P>, ParamsError>)
    ensures r.Success? <==> IdsInRange(reg.id, ps, |c.params|)
    ensures r.Success? ==> |r.value.params| == |c.params|
  {
    match Override(reg.id, c.params, ps)
    case Success(a) => Success(Params(a))
    case Failure(err) => Failure(err)
  }

  /** `get`: the parameter in slot `index`. */
  function Get<P>(c: Params<P>, index: int): (r: Result<P, ParamsError>)
    ensures r.Success? <==> 0 <= index < |c.params|
    ensures r.Success? ==> r.value == c.params[index]
    ensures r.Failure? ==> r.error == ArrayIndexOutOfBounds(index)
  {
    if 0 <= index < |c.params| then Success(c.params[index]) else Failure(ArrayIndexOutOfBounds(index))
  }

  /** Reading a just-added parameter by its id gives it back, and every other
      slot is as before. */
  lemma AddThenGet<P>(reg: Registry<P>, c: Params<P>, p: P, j: int)
    requires 0 <= reg.id(p) < |c.params|
    ensures AddAll(reg, c, [p]).Success?
    ensures Get(AddAll(reg, c, [p]).value, reg.id(p)) == Success(p)
    ensures j != reg.id(p) ==> Get(AddAll(reg, c, [p]).value, j) == Get(c, j)
  {
    assert [p][..0] == [];
    assert Override(reg.id, c.params, [p]) == Success(c.params[reg.id(p) := p]);
  }

  /** `containsAll`: every given parameter occurs in `current`. */
  function ContainsAll<P(==)>(current: seq<P>, ps: seq<P>): (r: bool)
    ensures r <==> forall i :: 0 <= i < |ps| ==> ps[i] in current
  {
    if |ps| == 0 then true else ps[0] in current && ContainsAll(current, ps[1..])
  }

  /** `from`: the defaults themselves when all given parameters are
      defaults, otherwise the defaults overridden by them. */
  function From<P(==)>(reg: Registry<P>, ps: seq<P>): (r: Result<Params<P>, ParamsError>) {
    if ContainsAll(reg.defaults, ps) then Success(Create(reg))
    else AddAll(reg, Create(reg), ps)
  }

  /** The shortcut in `from` is only an optimisation: on a well-formed
      registry it agrees with adding the parameters to `create()`. */
  lemma FromIsAddAllToCreate<P>(reg: Registry<P>, ps: seq<P>)
    requires WellFormed(reg)
    ensures From(reg, ps) == AddAll(reg, Create(reg), ps)
  {
    if ContainsAll(reg.defaults, ps) {
      DefaultsOverrideNothing(reg, ps);
    }
  }

  /** Writing defaults over the defaults changes nothing. */
  lemma {:induction false} DefaultsOverrideNothing<P>(reg: Registry<P>, ps: seq<P>)
    requires WellFormed(reg)
    requires forall i :: 0 <= i < |ps| ==> ps[i] in reg.defaults
    ensures Override(reg.id, reg.defaults, ps) == Success(reg.defaults)
  {
    if |ps| > 0 {
      var n := |ps| - 1;
      assert forall i :: 0 <= i < n ==> ps[..n][i] in reg.defaults by {
        forall i | 0 <= i < n ensures ps[..n][i] in reg.defaults {
          assert ps[..n][i] == ps[i];
        }
      }
      DefaultsOverrideNothing(reg, ps[..n]);
      var k :| 0 <= k < |reg.defaults| && reg.defaults[k] == ps[n];
      assert reg.id(ps[n]) == k;
      assert reg.defaults[k := ps[n]] == reg.defaults;
    }
  }

  /** Adding the same parameters twice is the same as adding them once. */
  lemma AddAllIdempotent<P>(reg: Registry<P>, c: Params<P>, ps: seq<P>)
    requires IdsInRange(reg.id, ps, |c.params|)
    ensures AddAll(reg, AddAll(reg, c, ps).value, ps) == AddAll(reg, c, ps)
  {
    var once := AddAll(reg, c, ps).value.params;
    var twice := AddAll(reg, Params(once), ps).value.params;
    forall j | 0 <= j < |once| ensures twice[j] == once[j] {
      OverrideLastWins(reg.id, c.params, ps, j);
      OverrideLastWins(reg.id, once, ps, j);
      if i :| 0 <= i < |ps| && reg.id(ps[i]) == j {
        var last := LastWithId(reg.id, ps, j, i);
      }
    }
    assert twice == once;
  }

  /** The index of the last parameter with id `j`, at or after `i`. */
  lemma LastWithId<P>(id: P -> int, ps: seq<P>, j: int, i: nat) returns (last: nat)
    requires i < |ps| && id(ps[i]) == j
    ensures i <= last < |ps| && id(ps[last]) == j
    ensures forall i' :: last < i' < |ps| ==> id(ps[i']) != j
    decreases |ps| - i
  {
    if exists i' :: i < i' < |ps| && id(ps[i']) == j {
      var i' :| i < i' < |ps| && id(ps[i']) == j;
      last := LastWithId(id, ps, j, i');
    } else {
      last := i;
    }
  }
}
