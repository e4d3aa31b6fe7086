/**
 * The registry (BaseManager): a key-to-child table with a one-way closed
 * flag. Every operation except IsClosed throws Closed once the registry is
 * closed; `create` instantiates a class by name through a factory.
 */
module Manager {
  import opened Wrappers
  import opened Model
  import Manageable

  /**
   * The class names whose no-argument construction succeeds. Java resolves
   * the name by reflection; here a name outside the factory is an
   * Instantiation failure and a name inside it yields a fresh child.
   */
  type Factory = set<string>

  /** A class object as the `create(Class)` overloads receive it. */
  datatype ClassDescriptor = ClassDescriptor(name: string)

  /** `new BaseManager()`: an open registry with an empty table. */
  function New(w: World): (r: (World, RegistryId))
    ensures r.1 == |w.registries| && r.0.children == w.children
    ensures r.0.registries == w.registries + [Registry(map[], false)]
    ensures !IsClosed(r.0, r.1) && GetChildCount(r.0, r.1) == Ok(0)
  {
    (w.(registries := w.registries + [Registry(map[], false)]), |w.registries|)
  }

  /** `isClosed`: never throws; in a well-formed world a closed registry holds no children. */
  function IsClosed(w: World, r: RegistryId): (b: bool)
    requires r < |w.registries|
    ensures Valid(w) && b ==> w.registries[r].table == map[]
  {
    w.registries[r].closed
  }

  /**
   * `containsChild(key)`: the closed check comes before key validation; the
   * answer is whether the key is bound.
   */
  function ContainsChild(w: World, r: RegistryId, key: string): (res: Result<bool, Error>)
    requires r < |w.registries|
    ensures IsClosed(w, r) ==> res == Err(Closed)
    ensures !IsClosed(w, r) && !ValidKey(key) ==> res == Err(Validation)
    ensures res.Ok? <==> !IsClosed(w, r) && ValidKey(key)
    ensures res.Ok? ==> (res.value <==> key in w.registries[r].table)
  {
    if w.registries[r].closed then Err(Closed)
    else if !ValidKey(key) then Err(Validation)
    else Ok(key in w.registries[r].table)
  }

  /**
   * `get(key)`: the bound child, or null for an unbound key (not an error);
   * closed before validation, as in ContainsChild.
   */
  function Get(w: World, r: RegistryId, key: string): (res: Result<Option<ChildId>, Error>)
    requires r < |w.registries|
    ensures res.Ok? <==> ContainsChild(w, r, key).Ok?
    ensures res.Err? ==> res.error == ContainsChild(w, r, key).error
    ensures res.Ok? ==> (res.value.Some? <==> ContainsChild(w, r, key).value)
    ensures res.Ok? && res.value.Some? ==> key in w.registries[r].table && w.registries[r].table[key] == res.value.value
  {
    if w.registries[r].closed then Err(Closed)
    else if !ValidKey(key) then Err(Validation)
    else if key in w.registries[r].table then Ok(Some(w.registries[r].table[key]))
    else Ok(None)
  }

  /**
   * `getKeys`: a snapshot set of the bound keys. A valid key is in it exactly
   * when `containsChild` answers true.
   */
  function GetKeys(w: World, r: RegistryId): (res: Result<set<string>, Error>)
    requires r < |w.registries|
    ensures res.Err? <==> IsClosed(w, r)
    ensures res.Err? ==> res.error == Closed
    ensures res.Ok? ==> forall k :: ValidKey(k) ==> (k in res.value <==> ContainsChild(w, r, k) == Ok(true))
    ensures res.Ok? ==> forall k :: k in res.value ==> k in w.registries[r].table
  {
    if w.registries[r].closed then Err(Closed) else Ok(w.registries[r].table.Keys)
  }

  /** `getChildCount`: the number of keys `getKeys` reports, never negative. */
  function GetChildCount(w: World, r: RegistryId): (res: Result<nat, Error>)
    requires r < |w.registries|
    ensures res.Err? <==> IsClosed(w, r)
    ensures res.Err? ==> res.error == Closed
    ensures res.Ok? ==> res.value == |GetKeys(w, r).value|
  {
    if w.registries[r].closed then Err(Closed) else Ok(|w.registries[r].table|)
  }

  /**
   * `closeChild(key)`: closed before validation; an unbound key returns null
   * and changes nothing; a bound key is removed, its child released and
   * returned, and nothing else changes.
   */
  function CloseChild(w: World, r: RegistryId, key: string): (s: Step<Option<ChildId>>)
    requires r < |w.registries|
    ensures |s.world.registries| == |w.registries| && |s.world.children| == |w.children|
    ensures s.out.Ok? <==> ContainsChild(w, r, key).Ok?
    ensures s.out.Err? ==> s.world == w && s.out.error == ContainsChild(w, r, key).error
    ensures s.out.Ok? && key !in w.registries[r].table ==> s == Step(w, Ok(None))
    ensures s.out.Ok? && key in w.registries[r].table ==>
      var id := w.registries[r].table[key];
      && s.out.value == Some(id)
      && s.world.registries[r] == w.registries[r].(table := w.registries[r].table - {key})
      && |s.world.registries[r].table| == |w.registries[r].table| - 1
      && (id < |w.children| ==> s.world.children[id] == Release(w.children[id]))
    ensures forall q :: 0 <= q < |w.registries| && q != r ==> s.world.registries[q] == w.registries[q]
    ensures forall i :: 0 <= i < |w.children| && s.out != Ok(Some(i)) ==> s.world.children[i] == w.children[i]
  {
    if w.registries[r].closed then Step(w, Err(Closed))
    else if !ValidKey(key) then Step(w, Err(Validation))
    else if key !in w.registries[r].table then Step(w, Ok(None))
    else
      var g := w.registries[r];
      var id := g.table[key];
      var w' := World(w.registries[r := g.(table := g.table - {key})], ReleaseIn(w.children, id));
      Step(w', Ok(Some(id)))
  }

  /** `addToChildTable(key, id)`: binds the key, replacing any earlier binding. */
  function AddToChildTable(w: World, r: RegistryId, key: string, id: ChildId): (w': World)
    requires r < |w.registries|
    ensures |w'.registries| == |w.registries| && w'.children == w.children
    ensures w'.registries[r].closed == w.registries[r].closed
    ensures w'.registries[r].table.Keys == w.registries[r].table.Keys + {key}
    ensures w'.registries[r].table[key] == id
    ensures forall k :: k in w.registries[r].table && k != key ==> w'.registries[r].table[k] == w.registries[r].table[k]
    ensures forall q :: 0 <= q < |w.registries| && q != r ==> w'.registries[q] == w.registries[q]
  {
    var g := w.registries[r];
    w.(registries := w.registries[r := g.(table := g.table[key := id])])
  }

  /**
   * `loadManageable(className)`: a fresh uninitialised child of that class,
   * or Instantiation when the factory cannot build it.
   */
  function Load(w: World, className: string, factory: Factory): (s: Step<ChildId>)
    ensures s.out.Err? <==> className !in factory
    ensures s.out.Err? ==> s == Step(w, Err(Instantiation))
    ensures s.out.Ok? ==>
      && s.out.value == |w.children| && s.world.registries == w.registries
      && s.world.children == w.children + [Uninitialised(className)]
  {
    if className !in factory then Step(w, Err(Instantiation))
    else
      var (w', id) := Manageable.New(w, className);
      Step(w', Ok(id))
  }

  /**
   * `loadAndStoreManageable(key, className)`: closed check, then the
   * duplicate check through ContainsChild, then instantiation, and only then
   * the store; every failure leaves the world as it was.
   */
  function LoadAndStore(w: World, r: RegistryId, key: string, className: string, factory: Factory): (s: Step<ChildId>)
    requires r < |w.registries|
    ensures s.out.Err? ==> s.world == w
    ensures IsClosed(w, r) ==> s.out == Err(Closed)
    ensures !IsClosed(w, r) && !ValidKey(key) ==> s.out == Err(Validation)
    ensures !IsClosed(w, r) && ValidKey(key) && key in w.registries[r].table ==> s.out == Err(DuplicateKey)
    ensures !IsClosed(w, r) && ValidKey(key) && key !in w.registries[r].table && className !in factory
      ==> s.out == Err(Instantiation)
    ensures s.out.Ok? <==> !IsClosed(w, r) && ValidKey(key) && key !in w.registries[r].table && className in factory
    ensures s.out.Ok? ==>
      && s.out.value == |w.children|
      && s.world.children == w.children + [Uninitialised(className)]
      && |s.world.registries| == |w.registries|
      && s.world.registries[r] == w.registries[r].(table := w.registries[r].table[key := s.out.value])
      && (forall q :: 0 <= q < |w.registries| && q != r ==> s.world.registries[q] == w.registries[q])
  {
    if w.registries[r].closed then Step(w, Err(Closed))
    else
      match ContainsChild(w, r, key)
      case Err(e) => Step(w, Err(e))
      case Ok(bound) =>
        if bound then Step(w, Err(DuplicateKey))
        else
          var loaded := Load(w, className, factory);
          match loaded.out
          case Err(e) => Step(w, Err(e))
          case Ok(id) => Step(AddToChildTable(loaded.world, r, key, id), Ok(id))
  }

  /**
   * `create(key, className)`: both arguments are validated before anything
   * else, then LoadAndStore stores a fresh child which `initialize(this, key)`
   * binds. All-or-nothing: every failure leaves the world unchanged.
   */
  function Create(w: World, r: RegistryId, key: string, className: string, factory: Factory): (s: Step<ChildId>)
    requires r < |w.registries|
    ensures |s.world.registries| == |w.registries|
    ensures s.out.Ok? ==> s.out.value < |s.world.children|
    ensures s.out == Err(Validation) <==> !ValidKey(key) || !ValidClassName(className)
    ensures ValidKey(key) && ValidClassName(className) && IsClosed(w, r) ==> s.out == Err(Closed)
    ensures ValidKey(key) && ValidClassName(className) && !IsClosed(w, r) && key in w.registries[r].table
      ==> s.out == Err(DuplicateKey)
    ensures (ValidKey(key) && ValidClassName(className) && !IsClosed(w, r) &&
      key !in w.registries[r].table && className !in factory) ==> s.out == Err(Instantiation)
    ensures s.out.Ok? <==> (ValidKey(key) && ValidClassName(className) && !IsClosed(w, r) &&
      key !in w.registries[r].table && className in factory)
    ensures s.out.Err? ==> s.world == w
    ensures s.out.Ok? ==>
      && s.out.value == |w.children|
      && |s.world.children| == |w.children| + 1
      && s.world.children[..|w.children|] == w.children
      && s.world.children[s.out.value] == Child(className, Some(key), Some(r), false)
      && |s.world.registries| == |w.registries|
      && s.world.registries[r] == w.registries[r].(table := w.registries[r].table[key := s.out.value])
      && (forall q :: 0 <= q < |w.registries| && q != r ==> s.world.registries[q] == w.registries[q])
  {
    if !ValidKey(key) || !ValidClassName(className) then Step(w, Err(Validation))
    else
      var stored := LoadAndStore(w, r, key, className, factory);
      match stored.out
      case Err(e) => Step(w, Err(e))
      case Ok(id) =>
        var bound := Manageable.Initialize(stored.world, id, Some(r), key);
        Step(bound.world, bound.out.Replace(id))
  }

  /** `create(className)`: the class name is also the key. */
  function CreateByClassName(w: World, r: RegistryId, className: string, factory: Factory): (s: Step<ChildId>)
    requires r < |w.registries|
    ensures |s.world.registries| == |w.registries|
    ensures s.out.Ok? ==> s.out.value < |s.world.children|
    ensures s.out.Ok? ==> Get(s.world, r, className) == Ok(Some(s.out.value))
    ensures s.out.Ok? ==> Manageable.GetKey(s.world, s.out.value) == Some(className)
    ensures s.out.Ok? ==> Manageable.GetParent(s.world, s.out.value) == Ok(Some(r))
    ensures ValidKey(className) && !IsClosed(w, r) && className in w.registries[r].table ==> s.out == Err(DuplicateKey)
    ensures s.out == Err(Validation) <==> !ValidKey(className) || !ValidClassName(className)
    ensures ValidKey(className) && ValidClassName(className) && IsClosed(w, r) ==> s.out == Err(Closed)
    ensures ValidKey(className) && ValidClassName(className) && !IsClosed(w, r) && className !in w.registries[r].table && className !in factory
      ==> s.out == Err(Instantiation)
    ensures s.out.Ok? <==> (ValidKey(className) && ValidClassName(className) && !IsClosed(w, r) &&
                            className !in w.registries[r].table && className in factory)
    ensures Utf16Length(className) > KEY_MAX_LENGTH ==> s.out == Err(Validation)
    ensures s.out.Err? ==> s.world == w
  {
    Create(w, r, className, className, factory)
  }

  /** `create(Class)`: the class's name is both the key and the class to load. */
  function CreateByClass(w: World, r: RegistryId, clazz: ClassDescriptor, factory: Factory): (s: Step<ChildId>)
    requires r < |w.registries|
    ensures |s.world.registries| == |w.registries|
    ensures s.out.Ok? ==> s.out.value < |s.world.children|
    ensures s.out.Ok? ==> Get(s.world, r, clazz.name) == Ok(Some(s.out.value))
    ensures s.out.Ok? ==> Manageable.GetKey(s.world, s.out.value) == Some(clazz.name)
    ensures s.out.Ok? ==> Manageable.GetParent(s.world, s.out.value) == Ok(Some(r))
    ensures ValidKey(clazz.name) && !IsClosed(w, r) && clazz.name in w.registries[r].table ==> s.out == Err(DuplicateKey)
    ensures s.out == Err(Validation) <==> !ValidKey(clazz.name) || !ValidClassName(clazz.name)
    ensures ValidKey(clazz.name) && ValidClassName(clazz.name) && IsClosed(w, r) ==> s.out == Err(Closed)
    ensures ValidKey(clazz.name) && ValidClassName(clazz.name) && !IsClosed(w, r) && clazz.name !in w.registries[r].table && clazz.name !in factory
      ==> s.out == Err(Instantiation)
    ensures s.out.Ok? <==> (ValidKey(clazz.name) && ValidClassName(clazz.name) && !IsClosed(w, r) &&
                            clazz.name !in w.registries[r].table && clazz.name in factory)
    ensures Utf16Length(clazz.name) > KEY_MAX_LENGTH ==> s.out == Err(Validation)
    ensures s.out.Err? ==> s.world == w
  {
    CreateByClassName(w, r, clazz.name, factory)
  }

  /** `create(key, Class)`: loads the class by its name under the given key. */
  function CreateWithClass(w: World, r: RegistryId, key: string, clazz: ClassDescriptor, factory: Factory): (s: Step<ChildId>)
    requires r < |w.registries|
    ensures |s.world.registries| == |w.registries|
    ensures s.out.Ok? ==> s.out.value < |s.world.children|
    ensures s.out.Ok? ==> Get(s.world, r, key) == Ok(Some(s.out.value))
    ensures s.out.Ok? ==> Manageable.GetKey(s.world, s.out.value) == Some(key) && s.world.children[s.out.value].cls == clazz.name
    ensures s.out.Ok? ==> Manageable.GetParent(s.world, s.out.value) == Ok(Some(r))
    ensures ValidKey(key) && ValidClassName(clazz.name) && !IsClosed(w, r) && key in w.registries[r].table
      ==> s.out == Err(DuplicateKey)
    ensures s.out == Err(Validation) <==> !ValidKey(key) || !ValidClassName(clazz.name)
    ensures ValidKey(key) && ValidClassName(clazz.name) && IsClosed(w, r) ==> s.out == Err(Closed)
    ensures ValidKey(key) && ValidClassName(clazz.name) && !IsClosed(w, r) && key !in w.registries[r].table && clazz.name !in factory
      ==> s.out == Err(Instantiation)
    ensures s.out.Ok? <==> (ValidKey(key) && ValidClassName(clazz.name) && !IsClosed(w, r) &&
                            key !in w.registries[r].table && clazz.name in factory)
    ensures s.out.Err? ==> s.world == w
  {
    Create(w, r, key, clazz.name, factory)
  }

  /** The child ids bound under the keys in `ks`. */
  function BoundIds(m: map<string, ChildId>, ks: set<string>): set<ChildId> {
    set k | k in ks && k in m :: m[k]
  }

  /** The table `m` cut down to the keys in `ks`. */
  function Restrict(m: map<string, ChildId>, ks: set<string>): map<string, ChildId> {
    map k | k in ks && k in m :: m[k]
  }

  /**
   * The contract of `close` (Manager.close): throws Closed on a closed
   * registry; otherwise every bound child is removed and released, the table
   * ends empty and the registry is closed. A bound key that fails validation
   * makes its `closeChild` throw.
   */
  function Close(w: World, r: RegistryId): (s: Step<()>)
    requires r < |w.registries|
    ensures IsClosed(w, r) ==> s == Step(w, Err(Closed))
    ensures s.out.Ok? <==> !IsClosed(w, r) && forall k :: k in w.registries[r].table ==> ValidKey(k)
    ensures s.out.Err? && !IsClosed(w, r) ==> s.out.error == Validation
    ensures s.out.Err? ==> s.world == w
    ensures |s.world.registries| == |w.registries| && |s.world.children| == |w.children|
    ensures s.out.Ok? ==> IsClosed(s.world, r) && s.world.registries[r].table == map[]
    ensures s.out.Ok? ==> forall k :: k in w.registries[r].table && w.registries[r].table[k] < |w.children| ==>
      s.world.children[w.registries[r].table[k]] == Release(w.children[w.registries[r].table[k]])
    ensures s.out.Ok? ==> forall i :: 0 <= i < |w.children| && i !in w.registries[r].table.Values ==>
      s.world.children[i] == w.children[i]
    ensures forall q :: 0 <= q < |w.registries| && q != r ==> s.world.registries[q] == w.registries[q]
  {
    var g := w.registries[r];
    if g.closed then Step(w, Err(Closed))
    else if exists k :: k in g.table && !ValidKey(k) then Step(w, Err(Validation))
    else Step(World(w.registries[r := Registry(map[], true)], ReleaseAll(w.children, g.table.Values)), Ok(()))
  }

  /** The world part-way through `close`: keys outside `ks` already closed. */
  function Partial(w: World, r: RegistryId, ks: set<string>): World
    requires r < |w.registries|
  {
    var m := w.registries[r].table;
    World(w.registries[r := w.registries[r].(table := Restrict(m, ks))], ReleaseAll(w.children, BoundIds(m, m.Keys - ks)))
  }

  /** Releasing one more child extends the released set by its id. */
  lemma ReleaseAllStep(children: seq<Child>, ids: set<ChildId>, id: ChildId)
    ensures ReleaseIn(ReleaseAll(children, ids), id) == ReleaseAll(children, ids + {id})
  {
  }

  /** One `closeChild(k)` call of the loop in `close` moves k from pending to done. */
  lemma PartialStep(w: World, r: RegistryId, ks: set<string>, k: string)
    requires r < |w.registries| && !w.registries[r].closed
    requires ks <= w.registries[r].table.Keys && k in ks && ValidKey(k)
    ensures CloseChild(Partial(w, r, ks), r, k).world == Partial(w, r, ks - {k})
  {
    var m := w.registries[r].table;
    var cur := Partial(w, r, ks);
    var g := cur.registries[r];
    assert k in g.table && g.table[k] == m[k];
    assert g.table - {k} == Restrict(m, ks - {k});
    assert BoundIds(m, m.Keys - (ks - {k})) == BoundIds(m, m.Keys - ks) + {m[k]} by {
      assert m.Keys - (ks - {k}) == (m.Keys - ks) + {k};
    }
    ReleaseAllStep(w.children, BoundIds(m, m.Keys - ks), m[k]);
    assert w.registries[r := w.registries[r].(table := Restrict(m, ks))][r := g.(table := g.table - {k})]
      == w.registries[r := w.registries[r].(table := Restrict(m, ks - {k}))];
  }

  /**
   * `close` as BaseManager runs it: a snapshot of the keys, `closeChild` on
   * each, then the closed flag. Its outcome is the one the contract `Close`
   * describes, and so is its final world when it succeeds or when the
   * registry was already closed.
   */
  method CloseEachChild(w: World, r: RegistryId) returns (s: Step<()>)
    requires r < |w.registries|
    ensures s.out == Close(w, r).out
    ensures IsClosed(w, r) ==> s == Close(w, r)
    ensures s.out.Ok? ==> s.world == Close(w, r).world
  {
    if w.registries[r].closed {
      return Step(w, Err(Closed));
    }
    var m := w.registries[r].table;
    var keys := m.Keys;
    var cur := w;
    assert Partial(w, r, keys) == w by {
      assert Restrict(m, keys) == m;
      assert BoundIds(m, m.Keys - keys) == {};
      assert ReleaseAll(w.children, {}) == w.children;
      assert w.registries[r := w.registries[r].(table := m)] == w.registries;
    }
    while keys != {}
      invariant keys <= m.Keys
      invariant forall k :: k in m && k !in keys ==> ValidKey(k)
      invariant cur == Partial(w, r, keys)
      decreases keys
    {
      var k :| k in keys;
      var step := CloseChild(cur, r, k);
      match step.out {
        case Err(e) =>
          return Step(step.world, Err(e));
        case Ok(_) =>
      }
      PartialStep(w, r, keys, k);
      keys := keys - {k};
      cur := step.world;
    }
    assert Restrict(m, {}) == map[];
    assert BoundIds(m, m.Keys) == m.Values by {
      forall id | id in m.Values ensures id in BoundIds(m, m.Keys) {
        var k :| k in m && m[k] == id;
      }
    }
    cur := cur.(registries := cur.registries[r := cur.registries[r].(closed := true)]);
    s := Step(cur, Ok(()));
  }
}
