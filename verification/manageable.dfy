/**
 * The child side of the protocol (ManageableImpl) apart from `close`, which
 * calls back into the registry and lives in module Lifecycle.
 */
module Manageable {
  import opened Wrappers
  import opened Model

  /**
   * `new C()` for a child class named `cls`: a fresh, uninitialised child
   * appended to the arena.
   */
  function New(w: World, cls: string): (r: (World, ChildId))
    ensures r.1 == |w.children| && r.0.registries == w.registries
    ensures r.0.children == w.children + [Child(cls, None, None, false)]
    ensures GetKey(r.0, r.1) == None && GetParent(r.0, r.1) == Ok(None)
  {
    (w.(children := w.children + [Uninitialised(cls)]), |w.children|)
  }

  /**
   * `initialize(parent, key)`: an absent parent or an empty key fails
   * validation; otherwise parent and key are bound together and the closed
   * flag is cleared, even on a child that was closed before.
   */
  function Initialize(w: World, id: ChildId, parent: Option<RegistryId>, key: string): (s: Step<()>)
    requires id < |w.children|
    ensures s.world.registries == w.registries && |s.world.children| == |w.children|
    ensures s.out.Err? <==> parent.None? || key == []
    ensures s.out.Err? ==> s.out.error == Validation && s.world == w
    ensures s.out.Ok? ==> GetKey(s.world, id) == Some(key) && GetParent(s.world, id) == Ok(parent)
    ensures s.out.Ok? ==> s.world.children[id].cls == w.children[id].cls
    ensures forall i :: 0 <= i < |w.children| && i != id ==> s.world.children[i] == w.children[i]
  {
    if parent.None? then Step(w, Err(Validation))
    else if key == [] then Step(w, Err(Validation))
    else
      var c := w.children[id].(key := Some(key), parent := parent, closed := false);
      Step(w.(children := w.children[id := c]), Ok(()))
  }

  /**
   * `getKey`: the key bound by `initialize`, null before it; close never
   * clears it, and it never throws. In a well-formed world a child with a
   * parent always has a non-empty key.
   */
  function GetKey(w: World, id: ChildId): (r: Option<string>)
    requires id < |w.children|
    ensures Valid(w) && w.children[id].parent.Some? ==> r.Some?
    ensures Valid(w) && r.Some? ==> r.value != []
  {
    w.children[id].key
  }

  /** `getParent`: the parent bound by `initialize`; a closed child throws. */
  function GetParent(w: World, id: ChildId): (r: Result<Option<RegistryId>, Error>)
    requires id < |w.children|
    ensures r.Err? <==> w.children[id].closed
    ensures r.Err? ==> r.error == Closed
  {
    if w.children[id].closed then Err(Closed) else Ok(w.children[id].parent)
  }

  /** Two children agree on what `equals` compares: concrete class and key. */
  predicate SameClassAndKey(a: Child, b: Child) {
    a.cls == b.cls && a.key == b.key
  }

  /**
   * `a.equals(other)`: true for the same object, false for null, false for a
   * different concrete class, otherwise true exactly when the keys are equal
   * (two null keys count as equal).
   */
  function Equals(w: World, a: ChildId, other: Option<ChildId>): (r: bool)
    requires a < |w.children|
    requires other.Some? ==> other.value < |w.children|
    ensures r <==> other.Some? && SameClassAndKey(w.children[a], w.children[other.value])
  {
    if other == Some(a) then true
    else if other.None? then false
    else
      var x := w.children[a];
      var y := w.children[other.value];
      if x.cls != y.cls then false
      else if x.key.None? then y.key.None?
      else y.key.Some? && x.key.value == y.key.value
  }

  /** Java's `int` arithmetic: `x` wrapped into the signed 32-bit range. */
  function Int32(x: int): (r: int)
    ensures -0x8000_0000 <= r < 0x8000_0000
    ensures (r - x) % 0x1_0000_0000 == 0
  {
    (x + 0x8000_0000) % 0x1_0000_0000 - 0x8000_0000
  }

  /**
   * `hashCode`: `31 * 1 + key.hashCode()` (0 for a null key) in 32-bit
   * arithmetic; `stringHash` stands for `String.hashCode`.
   */
  function HashCode(w: World, id: ChildId, stringHash: string -> int): (r: int)
    requires id < |w.children|
    ensures -0x8000_0000 <= r < 0x8000_0000
    ensures w.children[id].key.None? ==> r == 31
    ensures w.children[id].key.Some? ==> (r - 31 - stringHash(w.children[id].key.value)) % 0x1_0000_0000 == 0
  {
    Int32(31 * 1 + (match w.children[id].key case None => 0 case Some(k) => stringHash(k)))
  }

  /** `equals` is reflexive. */
  lemma EqualsReflexive(w: World, a: ChildId)
    requires a < |w.children|
    ensures Equals(w, a, Some(a))
  {
  }

  /** `equals` is symmetric. */
  lemma EqualsSymmetric(w: World, a: ChildId, b: ChildId)
    requires a < |w.children| && b < |w.children|
    ensures Equals(w, a, Some(b)) <==> Equals(w, b, Some(a))
  {
  }

  /** `equals` is transitive. */
  lemma EqualsTransitive(w: World, a: ChildId, b: ChildId, c: ChildId)
    requires a < |w.children| && b < |w.children| && c < |w.children|
    requires Equals(w, a, Some(b)) && Equals(w, b, Some(c))
    ensures Equals(w, a, Some(c))
  {
  }

  /** Equal children have equal hash codes, whatever `String.hashCode` computes. */
  lemma EqualsImpliesEqualHash(w: World, a: ChildId, b: ChildId, stringHash: string -> int)
    requires a < |w.children| && b < |w.children|
    requires Equals(w, a, Some(b))
    ensures HashCode(w, a, stringHash) == HashCode(w, b, stringHash)
  {
  }

  /**
   * The hash depends on the key alone: children of different classes with
   * equal keys hash alike although `equals` tells them apart.
   */
  lemma HashIgnoresClass(w: World, a: ChildId, b: ChildId, stringHash: string -> int)
    requires a < |w.children| && b < |w.children|
    requires w.children[a].key == w.children[b].key && w.children[a].cls != w.children[b].cls
    ensures HashCode(w, a, stringHash) == HashCode(w, b, stringHash)
    ensures !Equals(w, a, Some(b))
  {
  }

  /**
   * A closed child can be initialised again: `initialize` reopens it and
   * rebinds its parent and key.
   */
  lemma ReinitialiseReopens(w: World, id: ChildId, parent: RegistryId, key: string)
    requires id < |w.children| && w.children[id].closed && key != []
    ensures var s := Initialize(w, id, Some(parent), key);
      s.out.Ok? && !s.world.children[id].closed && GetParent(s.world, id) == Ok(Some(parent))
  {
  }
}
