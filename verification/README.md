# Parent-owned object registry: a Dafny model

This project models the core of the gab-manager library: a registry
(`BaseManager`, contract `Manager`) that creates uniquely-keyed children by
class name, tracks them in a key-to-child table, and can be closed once; and
the child side (`ManageableImpl`, contract `Manageable`), whose `close` asks
its parent registry to remove it.

The whole system is one immutable `World` (module `Model`). It holds an arena of
registries, each a table `map<string, ChildId>` plus a one-way `closed` flag.
It also holds an arena of children, each with a class name, a key, a parent
handle and a `closed` flag. Handles are indices into the arenas. A child's
parent is a non-owning handle; only a registry's table binds a child.

Every operation that changes state is a pure function that returns a `Step`.
A `Step` carries the world afterwards and either the returned value or the
thrown error. Queries return a plain `Result`. Because the post-state travels
with the error, "a failing `create` leaves the world unchanged" is a real
postcondition.

Modules:
- `Wrappers`: `Option` (a nullable reference) and `Result`.
- `Model`: error kinds, the key and class-name limits (256 and 2048), the
  datatypes, the release step, and the well-formedness invariant `Valid`.
- `Manageable`: the child's constructor, `initialize`, `getKey`,
  `getParent`, `equals` and `hashCode`.
- `Manager`: the registry's constructor and all its operations. It includes
  the declarative contract `Close` and the loop `CloseEachChild` that
  `BaseManager.close` runs, proved to agree.
- `Lifecycle`: the child's own `close`, which calls back into the registry,
  and properties that relate registry and child operations.
- `Invariants`: runs of operations. Every operation preserves `Valid` and
  single ownership (no child is bound under two keys, in one registry or
  two). A closed registry is frozen. `isClosed` holds exactly when a
  `close` succeeded.
- `Scenarios`: the repository's test scenarios and the key-length limit, for any
  instantiable class.

Modelling decisions:
- `closeChild` calls `child.closeWithoutRemove()`. That method is declared
  neither in `Manageable.java` nor in `ManageableImpl.java`, and its body is
  not part of this model. Its effect on every child class is an assumption,
  modelled as `Model.Release`: the release step only sets the child's own
  closed flag and drops its parent. It never touches a registry's table.
- Class loading by reflection (`Class.forName(...).newInstance()`) is a
  `Factory`: the set of class names whose no-argument construction succeeds.
  A name outside the set is an `Instantiation` error. A name inside it
  yields a fresh, uninitialised child of that class. A `Class` argument is a
  `ClassDescriptor` carrying the class's fully qualified name.
- The external `Validate` utility is modelled as the two length predicates
  `ValidKey` (0 < length <= 256) and `ValidClassName` (0 < length <= 2048).
  The length is Java's `String.length()`: UTF-16 code units, so a character
  above the Basic Multilingual Plane counts twice (`Model.Utf16Length`).
  `initialize` checks only that its key is non-empty.
- Equality: `ManageableImpl.equals` (lines 82-109) compares the concrete
  class (`getClass()`) as well as the key, while `hashCode` (lines 148-154)
  uses only the key. So children of different classes with equal keys hash
  alike but are not equal (`HashIgnoresClass`).
- `initialize` (`ManageableImpl.java` lines 162-170) has no guard against
  being called again, on an active child or a closed one. It rebinds parent
  and key and reopens the child (`Manageable.ReinitialiseReopens`).
- Closing a child that was never initialised dereferences a null parent in
  Java. The model reports this as the error kind `NullReference`.
- A child's key could only be null while it also has a parent in a world
  that is not `Valid`. `containsChild` then rejects it like an empty key,
  because the validator's not-null-or-empty rule treats both alike.
- `close` on a registry iterates a snapshot of the keys in an unspecified
  order, so its world after a mid-loop failure is not fixed. `Manager.Close`
  (the contract) and `Manager.CloseEachChild` (the loop) agree on the
  outcome. They also agree on the final world whenever the close succeeds.
  In `Valid` worlds it always succeeds on an open registry.

## Model

| member | source | states |
|---|---|---|
| Manageable.New | src/main/java/com/gabstudios/manager/impl/ManageableImpl.java:38-48 | a newly constructed child gets a fresh handle, has no key and no parent, and is not closed |
| Manageable.Initialize | src/main/java/com/gabstudios/manager/impl/ManageableImpl.java:162-170 | fails with Validation exactly when the parent is absent or the key is empty, and then changes nothing; otherwise `getKey` returns the key and `getParent` the parent given, the class is kept, and no other object changes |
| Manageable.GetKey | src/main/java/com/gabstudios/manager/impl/ManageableImpl.java:117-121 | never throws, even on a closed child; in a well-formed world a child that has a parent has a key, and every key it reports is non-empty |
| Manageable.GetParent | src/main/java/com/gabstudios/manager/impl/ManageableImpl.java:129-140 | throws Closed exactly when the child is closed |
| Manageable.Equals | src/main/java/com/gabstudios/manager/impl/ManageableImpl.java:82-109 | true exactly when the other object is non-null and has the same concrete class and an equal key (null keys equal); the identity shortcut agrees with this |
| Manageable.HashCode | src/main/java/com/gabstudios/manager/impl/ManageableImpl.java:148-154 | a 32-bit value; 31 for a null key; otherwise congruent to 31 plus the key's string hash modulo 2^32, the overflow of `31 * 1 + h` |
| Manageable.EqualsReflexive | src/main/java/com/gabstudios/manager/impl/ManageableImpl.java:84-87 | every child equals itself |
| Manageable.EqualsSymmetric | src/main/java/com/gabstudios/manager/impl/ManageableImpl.java:82-109 | a equals b exactly when b equals a |
| Manageable.EqualsTransitive | src/main/java/com/gabstudios/manager/impl/ManageableImpl.java:82-109 | equality is transitive |
| Manageable.EqualsImpliesEqualHash | src/main/java/com/gabstudios/manager/impl/ManageableImpl.java:148-154 | equal children have equal 32-bit hash codes for any string hash function |
| Manageable.HashIgnoresClass | src/main/java/com/gabstudios/manager/impl/ManageableImpl.java:148-154 | the hash depends on the key alone: children of different classes with equal keys hash alike yet are not equal |
| Manageable.ReinitialiseReopens | src/main/java/com/gabstudios/manager/impl/ManageableImpl.java:162-170 | `initialize` on a closed child succeeds and reopens it with the new parent, so re-initialisation is not prevented |
| Manager.New | src/main/java/com/gabstudios/manager/BaseManager.java:130-134 | a new registry is open and its child count is 0 |
| Manager.IsClosed | src/main/java/com/gabstudios/manager/BaseManager.java:351-355 | never throws; in a well-formed world a registry that reports closed holds no children |
| Manager.ContainsChild | src/main/java/com/gabstudios/manager/BaseManager.java:217-229 | throws Closed on a closed registry before validating; throws Validation on an invalid key; otherwise answers whether the key is bound |
| Manager.Get | src/main/java/com/gabstudios/manager/BaseManager.java:288-305 | fails exactly as `containsChild` fails; otherwise returns the bound child, or null exactly when `containsChild` answers false |
| Manager.GetKeys | src/main/java/com/gabstudios/manager/BaseManager.java:331-344 | throws Closed exactly when closed; otherwise a valid key is in the returned set exactly when `containsChild` answers true |
| Manager.GetChildCount | src/main/java/com/gabstudios/manager/BaseManager.java:313-323 | throws Closed exactly when closed; otherwise a natural number equal to the size of the `getKeys` set |
| Manager.CloseChild | src/main/java/com/gabstudios/manager/BaseManager.java:188-209 | fails as `containsChild` fails and then changes nothing; an unbound key returns null and changes nothing; a bound key returns its child, removes exactly that key (count drops by one), releases that child, and leaves every other registry and child untouched |
| Manager.AddToChildTable | src/main/java/com/gabstudios/manager/BaseManager.java:147-153 | binds the key to the child, keeping every other binding and registry |
| Manager.Load | src/main/java/com/gabstudios/manager/BaseManager.java:76-115 | fails with Instantiation exactly when the class cannot be built, changing nothing; otherwise appends one fresh uninitialised child of that class |
| Manager.LoadAndStore | src/main/java/com/gabstudios/manager/BaseManager.java:370-396 | closed is checked, then key validation, then duplicates (DuplicateKey), then instantiation (a class that cannot be built gives Instantiation); every failure leaves the world unchanged; success binds a fresh uninitialised child under the key and changes nothing else |
| Manager.Create | src/main/java/com/gabstudios/manager/BaseManager.java:270-280 | Validation exactly when key or class name is invalid (checked before closed); then Closed, DuplicateKey, Instantiation in that order; every failure leaves the world unchanged; success binds a fresh child with this key, this parent and the class, open, and changes nothing else |
| Manager.CreateByClassName | src/main/java/com/gabstudios/manager/BaseManager.java:248-251 | the class name is the key: Validation exactly when it fails the key or class-name limit; on a closed registry a valid name gives Closed; a bound name gives DuplicateKey; an unbuildable class gives Instantiation; success exactly otherwise, and then `get(className)` returns the child, whose key is the class name and whose parent is the registry; every failure leaves the world unchanged |
| Manager.CreateByClass | src/main/java/com/gabstudios/manager/BaseManager.java:237-240 | the class's name is the key: Validation exactly when it fails the key or class-name limit; on a closed registry a valid name gives Closed; a bound name gives DuplicateKey; an unbuildable class gives Instantiation; success exactly otherwise, and then `get(name)` returns the child, whose key is the name and whose parent is the registry; every failure leaves the world unchanged |
| Manager.CreateWithClass | src/main/java/com/gabstudios/manager/BaseManager.java:259-262 | Validation exactly when the key or the class's name is invalid; on a closed registry valid arguments give Closed; a bound key gives DuplicateKey; an unbuildable class gives Instantiation; success exactly otherwise, and then `get(key)` returns a child with that key, the class's name as its class and the registry as parent; every failure leaves the world unchanged |
| Manager.Close | src/main/java/com/gabstudios/manager/Manager.java:26-31 | a closed registry throws Closed and nothing changes; an open one whose keys are all valid ends closed with an empty table, every bound child released, and every other child and registry untouched |
| Manager.CloseEachChild | src/main/java/com/gabstudios/manager/BaseManager.java:161-180 | the loop of `closeChild` over a key snapshot, then setting the flag, has the outcome the contract `Close` describes, and its final world on success and on an already-closed registry (Closed, nothing changed) |
| Lifecycle.Close | src/main/java/com/gabstudios/manager/impl/ManageableImpl.java:56-74 | a closed child throws Closed and nothing changes; an uninitialised one throws NullReference; a closed parent or an invalid key makes the parent's `containsChild` throw; otherwise the key is removed from the parent if bound (count drops by one, the bound child released), the child has no parent and is closed, keeps its key, and `containsChild(key)` is false |
| Lifecycle.CreateThenGet | src/main/java/com/gabstudios/manager/BaseManager.java:270-280 | after a successful `create`, `get(key)` returns the child, `containsChild(key)` is true, the child's key is `key`, its parent is the registry, and the count grew by one |
| Lifecycle.CreateDuplicateKeepsOriginal | src/main/java/com/gabstudios/manager/BaseManager.java:384-388 | `create` on a bound key throws DuplicateKey and `get(key)` still returns the original child |
| Lifecycle.ClosedBeforeValidationExceptInCreate | src/main/java/com/gabstudios/manager/BaseManager.java:188-280 | on a closed registry with an invalid key, `get`, `containsChild` and `closeChild` throw Closed while `create` throws Validation |
| Lifecycle.NothingWorksAfterClose | src/test/java/com/gabstudios/manager/impl/ManagerImplTest.java:195-319 | after `close` the table is empty and `isClosed` is true; `get`, `containsChild`, `closeChild`, `getChildCount`, `getKeys` and a second `close` throw Closed; every `create` overload (two strings, class name, key and `Class`, `Class`) throws Closed on valid arguments and Validation otherwise |
| Lifecycle.ChildrenClosedAfterClose | src/main/java/com/gabstudios/manager/Manager.java:26-31 | every child the registry held is closed afterwards: its `getParent` and its own `close` throw Closed, and its key is kept |
| Lifecycle.KeysAreASnapshot | src/main/java/com/gabstudios/manager/BaseManager.java:331-344 | a key set taken before `closeChild(k)` still contains k, while a fresh one is the old set without k |
| Lifecycle.CloseTwiceFails | src/main/java/com/gabstudios/manager/impl/ManageableImpl.java:58-61 | closing a child a second time throws Closed and changes nothing |
| Lifecycle.CloseRemovesByKey | src/main/java/com/gabstudios/manager/impl/ManageableImpl.java:66-69 | a child's `close` removes and releases whatever other child is bound under its key in its parent |
| Invariants.CreatePreservesValid | src/main/java/com/gabstudios/manager/BaseManager.java:270-280 | `create` keeps every bound key valid, every bound id live, closed registries empty, and every child with a parent active and keyed |
| Invariants.CloseChildPreservesValid | src/main/java/com/gabstudios/manager/BaseManager.java:188-209 | `closeChild` keeps the world well-formed |
| Invariants.ClosePreservesValid | src/main/java/com/gabstudios/manager/BaseManager.java:161-180 | registry `close` keeps the world well-formed |
| Invariants.InitializePreservesValid | src/main/java/com/gabstudios/manager/impl/ManageableImpl.java:162-170 | `initialize` with an existing parent keeps the world well-formed |
| Invariants.ChildClosePreservesValid | src/main/java/com/gabstudios/manager/impl/ManageableImpl.java:56-74 | a child's `close` keeps the world well-formed, and in a well-formed world its parent always exists |
| Invariants.CloseSucceedsWhenOpen | src/main/java/com/gabstudios/manager/BaseManager.java:170-176 | in a well-formed world `close` on an open registry succeeds, so the table is emptied as the assertion after the loop expects |
| Invariants.ApplyPreservesValid | src/main/java/com/gabstudios/manager/BaseManager.java:117-125 | every state-changing operation of registry or child keeps the world well-formed |
| Invariants.RunPreservesValid | src/main/java/com/gabstudios/manager/BaseManager.java:117-125 | every sequence of operations from a well-formed world ends in a well-formed world |
| Invariants.CreatePreservesSingleOwner | src/main/java/com/gabstudios/manager/BaseManager.java:384-393 | `create` binds a child that no table held before, so no child ends up bound under two keys |
| Invariants.ApplyPreservesSingleOwner | src/main/java/com/gabstudios/manager/BaseManager.java:117-120 | every state-changing operation keeps each child bound under at most one key of one registry |
| Invariants.RunPreservesSingleOwner | src/main/java/com/gabstudios/manager/BaseManager.java:117-120 | every run from a well-formed world with single owners keeps both properties |
| Invariants.CloseReleasesOnePerKey | src/main/java/com/gabstudios/manager/BaseManager.java:161-180 | with single owners, `close` of an open registry succeeds and releases as many distinct children as `getChildCount` reported |
| Invariants.ClosedRegistryFrozen | src/main/java/com/gabstudios/manager/Manager.java:26-31 | no operation changes a closed registry |
| Invariants.OnlyCloseCloses | src/main/java/com/gabstudios/manager/BaseManager.java:161-180 | an open registry becomes closed exactly by a successful `close` of that registry |
| Invariants.IsClosedExactlyAfterClose | src/main/java/com/gabstudios/manager/Manager.java:138-143 | after any run from an open registry, `isClosed` is true exactly when some `close` of it succeeded during the run |
| Invariants.CreateNeverOrphans | src/main/java/com/gabstudios/manager/BaseManager.java:277-278 | inside `create`, `initialize` on the freshly stored child always succeeds, so no entry is left bound but uninitialised |
| Scenarios.KeyLengthBoundary | src/main/java/com/gabstudios/manager/BaseManager.java:270-275 | the key limit `KEY_MAX_LENGTH` (256): a key of 256 UTF-16 code units passes validation in `create`; one of 257 makes `create` throw Validation and `get` throw Validation or Closed |
| Scenarios.BmpKeyOf256Passes | src/main/java/com/gabstudios/manager/BaseManager.java:270-275 | the key limit in code units: 256 characters of the Basic Multilingual Plane are 256 code units and pass validation in `create` |
| Scenarios.SupplementaryKeyOf200Fails | src/main/java/com/gabstudios/manager/BaseManager.java:270-275 | the key limit in code units: 200 characters above the Basic Multilingual Plane are 400 code units, so `create` throws Validation |
| Scenarios.ThreeChildrenThenClose | src/test/java/com/gabstudios/manager/impl/ManagerImplTest.java:322-375 | three `create(key, Class)` calls with keys c1, c2, c3 succeed and bind those keys, giving a count of 3; `close` succeeds; afterwards the count throws Closed |
| Scenarios.CreateBindsKeyAndParent | src/test/java/com/gabstudios/manager/impl/ManageableImplTest.java:50-65 | `create(Class)` in a new registry succeeds; the child's key is the class's name and `getParent` returns the registry |
| Scenarios.ChildCloseRemovesItself | src/test/java/com/gabstudios/manager/impl/ManageableImplTest.java:147-168 | a child closing itself leaves `containsChild` false and the count 0, keeps its key, and a second `close` throws Closed |

## Left out

- Reflection in `loadManageable` and its per-exception messages: replaced by the `Factory` set, whose only failure is `Instantiation`. The underlying cause an exception would carry is not modelled.
- Null arguments: Dafny strings cannot be null. A null key or class name is rejected by the validator exactly like an empty one. A null `Class` argument makes Java throw NullPointerException; that is not modelled. A null parent passed to `initialize` is modelled as `None`.
- The `Validate` library's messages and any trimming or whitespace rules: only length limits are modelled. Dafny characters are Unicode scalar values, so a Java string holding a lone surrogate cannot be represented. The `key.trim()` check in `addToChildTable` is a debug assertion and is not modelled.
- `toString` of registry and child: formatting only.
- `String.hashCode`: a parameter of `Manageable.HashCode`. Only the outer `31 * 1 + h` in 32-bit arithmetic is modelled.
- `ManageableExistsException`, `ManagerClosedException`, `ManagerException`: error kinds only, without messages or causes.
- `BaseManageable`, `ManagerImpl` and `MockManageableImpl` are not part of this model. `closeWithoutRemove` has no body in the modelled files; its effect is the assumed release step described above.
- Concurrency: the source has no synchronisation and a registry is meant to be confined to one thread; the model is sequential.
- Java generics and casts: all children share one datatype with a class name.
- Java `assert` statements are not runtime checks here. The one after the loop in `close` is proved (`Invariants.CloseSucceedsWhenOpen`, `Manager.Close`). The one in `closeChild` checks that the removed child's own key is no longer bound. It follows from `Manager.CloseChild` when that key is the key the child was bound under, which `create` establishes. A child re-initialised under another key that is bound in the same registry would break it; the model does not state that assertion as a property.
- Manager.Close: when a bound key fails validation, the contract returns the world unchanged. `BaseManager.close` would already have released the keys it visited before the invalid one. Such a key cannot occur in a `Valid` world, and `Invariants.Apply` uses this choice.
- Manager.CloseEachChild: when a bound key fails validation part-way through, the world it returns is not specified beyond the error kind, because the iteration order of a Java `Set` is unspecified. Such a key cannot occur in a `Valid` world.
