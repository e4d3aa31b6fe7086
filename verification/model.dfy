/**
 * The state shared by a registry (BaseManager) and the children it manages
 * (ManageableImpl): error kinds, validation rules, and one immutable world
 * holding every registry and every child object.
 */
module Model {
  import opened Wrappers

  /** The failure kinds the registry and its children signal. */
  datatype Error =
    | Validation     // a key or class name that is empty or too long, or an absent parent
    | Closed         // ManagerClosedException: the registry or the child is closed
    | DuplicateKey   // ManageableExistsException: the key is already bound
    | Instantiation  // ManagerException: the class name could not be turned into an instance
    | NullReference  // the NullPointerException of closing a child that was never initialised

  /** Longest key a registry accepts. */
  const KEY_MAX_LENGTH: nat := 256

  /** Longest class name a registry accepts. */
  const CLASS_NAME_MAX_LENGTH: nat := 2048

  /**
   * The length Java's `String.length()` reports: UTF-16 code units, one for a
   * character of the Basic Multilingual Plane and two (a surrogate pair) for
   * any character above it.
   */
  function Utf16Length(s: string): (n: nat)
    ensures |s| <= n <= 2 * |s|
  {
    if s == [] then 0 else (if s[0] as int < 0x1_0000 then 1 else 2) + Utf16Length(s[1..])
  }

  /** A string of Basic Multilingual Plane characters has one code unit per character. */
  lemma {:induction false} Utf16LengthOfBmp(s: string)
    requires forall i :: 0 <= i < |s| ==> s[i] as int < 0x1_0000
    ensures Utf16Length(s) == |s|
  {
    if s != [] {
      Utf16LengthOfBmp(s[1..]);
    }
  }

  /** A string of characters above the Basic Multilingual Plane has two code units per character. */
  lemma {:induction false} Utf16LengthOfSupplementary(s: string)
    requires forall i :: 0 <= i < |s| ==> s[i] as int >= 0x1_0000
    ensures Utf16Length(s) == 2 * |s|
  {
    if s != [] {
      Utf16LengthOfSupplementary(s[1..]);
    }
  }

  /** A key passes validation when it is non-empty and at most KEY_MAX_LENGTH UTF-16 code units long. */
  predicate ValidKey(key: string) {
    0 < |key| && Utf16Length(key) <= KEY_MAX_LENGTH
  }

  /** A class name passes validation when it is non-empty and at most CLASS_NAME_MAX_LENGTH UTF-16 code units long. */
  predicate ValidClassName(name: string) {
    0 < |name| && Utf16Length(name) <= CLASS_NAME_MAX_LENGTH
  }

  /** Handles into the world's arenas: the index of a registry or of a child object. */
  type RegistryId = nat
  type ChildId = nat

  /** A registry: its key-to-child table and its one-way closed flag. */
  datatype Registry = Registry(table: map<string, ChildId>, closed: bool)

  /**
   * A child object: its concrete class name, its key and parent (both null
   * until `initialize`), and its closed flag.
   */
  datatype Child = Child(cls: string, key: Option<string>, parent: Option<RegistryId>, closed: bool)

  /** Every registry and every child object in existence. */
  datatype World = World(registries: seq<Registry>, children: seq<Child>)

  /** The world after an operation, with the value it returned or the error it threw. */
  datatype Step<V> = Step(world: World, out: Result<V, Error>)

  /** A child just built by its no-argument constructor. */
  function Uninitialised(cls: string): Child {
    Child(cls, None, None, false)
  }

  /**
   * The release step a registry applies to a child it removes
   * (`closeWithoutRemove`): the child drops its parent and becomes closed.
   * It touches the child's own fields only and never a registry's table.
   */
  function Release(c: Child): Child {
    c.(parent := None, closed := true)
  }

  /** The child arena with child `id` released; a dangling id changes nothing. */
  function ReleaseIn(children: seq<Child>, id: ChildId): (r: seq<Child>)
    ensures |r| == |children|
    ensures forall i :: 0 <= i < |r| ==> r[i] == (if i == id then Release(children[i]) else children[i])
  {
    if id < |children| then children[id := Release(children[id])] else children
  }

  /** The child arena with every child whose id is in `ids` released. */
  function ReleaseAll(children: seq<Child>, ids: set<ChildId>): (r: seq<Child>)
    ensures |r| == |children|
    ensures forall i :: 0 <= i < |r| ==> r[i] == (if i in ids then Release(children[i]) else children[i])
  {
    seq(|children|, i requires 0 <= i < |children| => if i in ids then Release(children[i]) else children[i])
  }

  /**
   * Well-formedness of one registry in a world with `childCount` children:
   * every bound key passed validation, every bound id names a child, and a
   * closed registry holds nothing.
   */
  predicate RegistryValid(g: Registry, childCount: nat) {
    && (forall k :: k in g.table ==> ValidKey(k) && g.table[k] < childCount)
    && (g.closed ==> g.table == map[])
  }

  /**
   * Well-formedness of one child in a world with `registryCount` registries:
   * a child with a parent is active, names an existing registry and has a
   * key; a key, once set, is non-empty.
   */
  predicate ChildValid(c: Child, registryCount: nat) {
    && (c.parent.Some? ==> c.parent.value < registryCount && c.key.Some? && !c.closed)
    && (c.key.Some? ==> c.key.value != [])
  }

  /** The invariant every reachable world satisfies. */
  predicate Valid(w: World) {
    && (forall r :: 0 <= r < |w.registries| ==> RegistryValid(w.registries[r], |w.children|))
    && (forall i :: 0 <= i < |w.children| ==> ChildValid(w.children[i], |w.registries|))
  }

  /**
   * Exclusive ownership: no child is bound under two keys, whether in one
   * registry or in two.
   */
  predicate SingleOwner(w: World) {
    forall r1, k1, r2, k2 ::
      && 0 <= r1 < |w.registries| && 0 <= r2 < |w.registries|
      && k1 in w.registries[r1].table && k2 in w.registries[r2].table
      && w.registries[r1].table[k1] == w.registries[r2].table[k2]
      ==> r1 == r2 && k1 == k2
  }

  /** The child's parent, if it has one, is a registry of this world. */
  predicate ParentLive(w: World, id: ChildId)
    requires id < |w.children|
  {
    w.children[id].parent.Some? ==> w.children[id].parent.value < |w.registries|
  }
}
