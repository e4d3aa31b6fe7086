/**
 * The repository's test scenarios and the key-length limit, stated over the
 * model for every factory and class name that can be instantiated.
 */
module Scenarios {
  import opened Wrappers
  import opened Model
  import Manageable
  import Manager
  import Lifecycle
  import Invariants

  /**
   * The key limit (`KEY_MAX_LENGTH`, 256): a key of exactly 256 UTF-16 code
   * units passes validation; one of 257 throws Validation.
   */
  lemma KeyLengthBoundary(w: World, r: RegistryId, key: string, className: string, factory: Manager.Factory)
    requires r < |w.registries| && ValidClassName(className)
    ensures Utf16Length(key) == 256 ==> Manager.Create(w, r, key, className, factory).out != Err(Validation)
    ensures Utf16Length(key) == 257 ==> Manager.Create(w, r, key, className, factory).out == Err(Validation)
    ensures Utf16Length(key) == 257 ==> Manager.Get(w, r, key) == (if Manager.IsClosed(w, r) then Err(Closed) else Err(Validation))
  {
  }

  /** The key limit counted in code units: 256 characters of the Basic Multilingual Plane pass validation. */
  lemma BmpKeyOf256Passes(w: World, r: RegistryId, key: string, className: string, factory: Manager.Factory)
    requires r < |w.registries| && ValidClassName(className)
    requires |key| == 256 && forall i :: 0 <= i < |key| ==> key[i] as int < 0x1_0000
    ensures Manager.Create(w, r, key, className, factory).out != Err(Validation)
  {
    Utf16LengthOfBmp(key);
  }

  /**
   * The key limit counted in code units: 200 characters above the Basic
   * Multilingual Plane are 400 UTF-16 code units, so such a key throws
   * Validation although it has fewer than 256 characters.
   */
  lemma SupplementaryKeyOf200Fails(w: World, r: RegistryId, key: string, className: string, factory: Manager.Factory)
    requires r < |w.registries|
    requires |key| == 200 && forall i :: 0 <= i < |key| ==> key[i] as int >= 0x1_0000
    ensures Manager.Create(w, r, key, className, factory).out == Err(Validation)
  {
    Utf16LengthOfSupplementary(key);
  }

  /** One `create` of an unbound valid key in an open, well-formed registry adds exactly that key. */
  lemma CreateAddsKey(w: World, r: RegistryId, key: string, className: string, factory: Manager.Factory)
    requires Valid(w) && r < |w.registries| && !Manager.IsClosed(w, r)
    requires ValidKey(key) && ValidClassName(className) && className in factory && key !in w.registries[r].table
    ensures var s := Manager.Create(w, r, key, className, factory);
      && s.out.Ok?
      && Valid(s.world)
      && r < |s.world.registries| && !Manager.IsClosed(s.world, r)
      && s.world.registries[r].table.Keys == w.registries[r].table.Keys + {key}
  {
  }

  /**
   * Three children "c1", "c2", "c3" in a new registry give a count of 3;
   * after `close` the count throws Closed.
   */
  lemma ThreeChildrenThenClose(clazz: Manager.ClassDescriptor, factory: Manager.Factory)
    requires ValidClassName(clazz.name) && clazz.name in factory
    ensures var (w0, r) := Manager.New(Invariants.Empty());
      var s1 := Manager.CreateWithClass(w0, r, "c1", clazz, factory);
      var s2 := Manager.CreateWithClass(s1.world, r, "c2", clazz, factory);
      var s3 := Manager.CreateWithClass(s2.world, r, "c3", clazz, factory);
      var closed := Manager.Close(s3.world, r);
      && s1.out.Ok? && s2.out.Ok? && s3.out.Ok?
      && Manageable.GetKey(s1.world, s1.out.value) == Some("c1")
      && Manageable.GetKey(s2.world, s2.out.value) == Some("c2")
      && Manageable.GetKey(s3.world, s3.out.value) == Some("c3")
      && Manager.GetChildCount(s3.world, r) == Ok(3)
      && closed.out.Ok?
      && Manager.IsClosed(closed.world, r)
      && Manager.GetChildCount(closed.world, r) == Err(Closed)
  {
    var className := clazz.name;
    var (w0, r) := Manager.New(Invariants.Empty());
    Invariants.ApplyPreservesValid(Invariants.Empty(), Invariants.NewRegistry, factory);
    assert w0 == Invariants.Apply(Invariants.Empty(), Invariants.NewRegistry, factory);
    CreateAddsKey(w0, r, "c1", className, factory);
    var s1 := Manager.CreateWithClass(w0, r, "c1", clazz, factory);
    assert s1 == Manager.Create(w0, r, "c1", className, factory);
    assert "c2" != "c1";
    CreateAddsKey(s1.world, r, "c2", className, factory);
    var s2 := Manager.CreateWithClass(s1.world, r, "c2", clazz, factory);
    assert s2 == Manager.Create(s1.world, r, "c2", className, factory);
    assert "c3" != "c1" && "c3" != "c2";
    CreateAddsKey(s2.world, r, "c3", className, factory);
    var s3 := Manager.CreateWithClass(s2.world, r, "c3", clazz, factory);
    assert s3 == Manager.Create(s2.world, r, "c3", className, factory);
    assert s3.world.registries[r].table.Keys == {"c1", "c2", "c3"};
    assert |{"c1", "c2", "c3"}| == 3;
    Invariants.CloseSucceedsWhenOpen(s3.world, r);
  }

  /**
   * `create(X.class)` in a new registry: the child's key is the class's name
   * and its parent is the registry.
   */
  lemma CreateBindsKeyAndParent(clazz: Manager.ClassDescriptor, factory: Manager.Factory)
    requires ValidKey(clazz.name) && ValidClassName(clazz.name) && clazz.name in factory
    ensures var (w0, r) := Manager.New(Invariants.Empty());
      var s := Manager.CreateByClass(w0, r, clazz, factory);
      && s.out.Ok?
      && Manageable.GetKey(s.world, s.out.value) == Some(clazz.name)
      && Manageable.GetParent(s.world, s.out.value) == Ok(Some(r))
  {
  }

  /**
   * A created child closing itself: `containsChild` turns false, the count
   * drops to 0, the child is closed, and closing it again throws Closed.
   */
  lemma ChildCloseRemovesItself(className: string, factory: Manager.Factory)
    requires ValidKey(className) && ValidClassName(className) && className in factory
    ensures var (w0, r) := Manager.New(Invariants.Empty());
      Manager.Create(w0, r, className, className, factory).out.Ok?
    ensures var (w0, r) := Manager.New(Invariants.Empty());
      var s := Manager.Create(w0, r, className, className, factory);
      var c := Lifecycle.Close(s.world, s.out.value);
      && c.out.Ok?
      && Manager.ContainsChild(c.world, r, className) == Ok(false)
      && Manager.GetChildCount(c.world, r) == Ok(0)
      && Manageable.GetParent(c.world, s.out.value) == Err(Closed)
      && Manageable.GetKey(c.world, s.out.value) == Some(className)
      && Lifecycle.Close(c.world, s.out.value).out == Err(Closed)
  {
    var (w0, r) := Manager.New(Invariants.Empty());
    var s := Manager.Create(w0, r, className, className, factory);
    assert s.world.registries[r].table == map[className := 0];
    var c := Lifecycle.Close(s.world, s.out.value);
    assert c.world.registries[r].table == map[];
  }
}
