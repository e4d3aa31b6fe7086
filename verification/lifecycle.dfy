/**
 * The two-way protocol between a child and its registry: the child's own
 * `close` (ManageableImpl.close), which asks its parent to remove it, and the
 * properties that relate registry and child operations to each other.
 */
module Lifecycle {
  import opened Wrappers
  import opened Model
  import Manageable
  import Manager

  /** The child's own fields after `close`: no parent, closed, key kept. */
  function Detach(w: World, id: ChildId): World
    requires id < |w.children|
  {
    w.(children := ReleaseIn(w.children, id))
  }

  /**
   * `close()` on a child: a closed child throws Closed; a child that was never
   * initialised has no parent to call (NullReference). Otherwise the parent's
   * `containsChild(key)` is asked, which throws on a closed parent or an
   * invalid key; when the key is bound the parent's `closeChild(key)` removes
   * and releases whatever child is bound under it. Finally the child drops
   * its parent and becomes closed.
   */
  function Close(w: World, id: ChildId): (s: Step<()>)
    requires id < |w.children| && ParentLive(w, id)
    ensures |s.world.registries| == |w.registries| && |s.world.children| == |w.children|
    ensures w.children[id].closed ==> s == Step(w, Err(Closed))
    ensures !w.children[id].closed && w.children[id].parent.None? ==> s == Step(w, Err(NullReference))
    ensures s.out.Err? ==> s.world == w
    ensures !w.children[id].closed && w.children[id].parent.Some? && Manager.IsClosed(w, w.children[id].parent.value)
      ==> s.out == Err(Closed)
    ensures (!w.children[id].closed && w.children[id].parent.Some? && !Manager.IsClosed(w, w.children[id].parent.value) &&
      !(w.children[id].key.Some? && ValidKey(w.children[id].key.value))) ==> s.out == Err(Validation)
    ensures s.out.Ok? <==>
      && !w.children[id].closed
      && w.children[id].parent.Some?
      && !Manager.IsClosed(w, w.children[id].parent.value)
      && w.children[id].key.Some? && ValidKey(w.children[id].key.value)
    ensures s.out.Ok? ==>
      && s.world.children[id] == w.children[id].(parent := None, closed := true)
      && Manageable.GetParent(s.world, id) == Err(Closed)
      && Manageable.GetKey(s.world, id) == Manageable.GetKey(w, id)
      && Manager.ContainsChild(s.world, w.children[id].parent.value, w.children[id].key.value) == Ok(false)
    ensures s.out.Ok? ==>
      var p := w.children[id].parent.value;
      var key := w.children[id].key.value;
      var g := w.registries[p];
      && s.world.registries[p] == g.(table := g.table - {key})
      && (forall q :: 0 <= q < |w.registries| && q != p ==> s.world.registries[q] == w.registries[q])
      && (key in g.table ==> |s.world.registries[p].table| == |g.table| - 1)
      && (key in g.table && g.table[key] != id && g.table[key] < |w.children| ==>
            s.world.children[g.table[key]] == Release(w.children[g.table[key]]))
      && (forall i :: 0 <= i < |w.children| && i != id && (key in g.table ==> i != g.table[key]) ==>
            s.world.children[i] == w.children[i])
  {
    var c := w.children[id];
    if c.closed then Step(w, Err(Closed))
    else if c.parent.None? then Step(w, Err(NullReference))
    else
      var p := c.parent.value;
      // A null key fails `containsChild`'s validation exactly as an empty one does.
      var key := c.key.GetOr([]);
      match Manager.ContainsChild(w, p, key)
      case Err(e) => Step(w, Err(e))
      case Ok(bound) =>
        if bound then
          var removed := Manager.CloseChild(w, p, key);
          match removed.out
          case Err(e) => Step(removed.world, Err(e))
          case Ok(_) => Step(Detach(removed.world, id), Ok(()))
        else Step(Detach(w, id), Ok(()))
  }

  /**
   * A successful `create(key, className)` binds a child that `get(key)`
   * returns and `containsChild(key)` reports, whose key is `key`, whose parent
   * is the registry, and which is active.
   */
  lemma CreateThenGet(w: World, r: RegistryId, key: string, className: string, factory: Manager.Factory)
    requires r < |w.registries|
    ensures var s := Manager.Create(w, r, key, className, factory);
      s.out.Ok? ==>
        && Manager.Get(s.world, r, key) == Ok(Some(s.out.value))
        && Manager.ContainsChild(s.world, r, key) == Ok(true)
        && Manageable.GetKey(s.world, s.out.value) == Some(key)
        && Manageable.GetParent(s.world, s.out.value) == Ok(Some(r))
        && Manager.GetChildCount(s.world, r) == Ok(|w.registries[r].table| + 1)
  {
  }

  /**
   * `create` on a bound key throws DuplicateKey and leaves the table, with
   * the original child under that key, exactly as it was.
   */
  lemma CreateDuplicateKeepsOriginal(w: World, r: RegistryId, key: string, className: string, factory: Manager.Factory)
    requires r < |w.registries| && !Manager.IsClosed(w, r)
    requires ValidKey(key) && ValidClassName(className) && key in w.registries[r].table
    ensures var s := Manager.Create(w, r, key, className, factory);
      && s.out == Err(DuplicateKey)
      && Manager.Get(s.world, r, key) == Ok(Some(w.registries[r].table[key]))
  {
  }

  /**
   * Error precedence differs: on a closed registry an invalid key makes
   * `get`, `containsChild` and `closeChild` throw Closed but `create` throw
   * Validation.
   */
  lemma ClosedBeforeValidationExceptInCreate(w: World, r: RegistryId, key: string, className: string, factory: Manager.Factory)
    requires r < |w.registries| && Manager.IsClosed(w, r) && !ValidKey(key)
    ensures Manager.Get(w, r, key) == Err(Closed)
    ensures Manager.ContainsChild(w, r, key) == Err(Closed)
    ensures Manager.CloseChild(w, r, key).out == Err(Closed)
    ensures Manager.Create(w, r, key, className, factory).out == Err(Validation)
  {
  }

  /**
   * After a successful registry `close`: the table is empty, `isClosed` is
   * true, every other operation throws Closed, and so does a second `close`.
   */
  lemma NothingWorksAfterClose(w: World, r: RegistryId, key: string, className: string, clazz: Manager.ClassDescriptor,
                               factory: Manager.Factory)
    requires r < |w.registries| && Manager.Close(w, r).out.Ok?
    ensures var w' := Manager.Close(w, r).world;
      && Manager.IsClosed(w', r)
      && w'.registries[r].table == map[]
      && Manager.Get(w', r, key) == Err(Closed)
      && Manager.ContainsChild(w', r, key) == Err(Closed)
      && Manager.CloseChild(w', r, key).out == Err(Closed)
      && Manager.Create(w', r, key, className, factory).out == (if ValidKey(key) && ValidClassName(className) then Err(Closed) else Err(Validation))
      && Manager.CreateWithClass(w', r, key, clazz, factory).out
         == (if ValidKey(key) && ValidClassName(clazz.name) then Err(Closed) else Err(Validation))
      && Manager.CreateByClass(w', r, clazz, factory).out
         == (if ValidKey(clazz.name) && ValidClassName(clazz.name) then Err(Closed) else Err(Validation))
      && Manager.CreateByClassName(w', r, className, factory).out
         == (if ValidKey(className) && ValidClassName(className) then Err(Closed) else Err(Validation))
      && Manager.GetChildCount(w', r) == Err(Closed)
      && Manager.GetKeys(w', r) == Err(Closed)
      && Manager.Close(w', r) == Step(w', Err(Closed))
  {
  }

  /**
   * After a successful registry `close`, every child it held is closed: its
   * own `close` throws Closed and its `getParent` throws Closed.
   */
  lemma ChildrenClosedAfterClose(w: World, r: RegistryId, key: string)
    requires r < |w.registries| && Manager.Close(w, r).out.Ok?
    requires key in w.registries[r].table && w.registries[r].table[key] < |w.children|
    ensures var w' := Manager.Close(w, r).world;
      var id := w.registries[r].table[key];
      && Manageable.GetParent(w', id) == Err(Closed)
      && Manageable.GetKey(w', id) == Manageable.GetKey(w, id)
      && Close(w', id) == Step(w', Err(Closed))
  {
  }

  /**
   * `getKeys` returns a snapshot: after `closeChild(k)` removes a bound key,
   * the set obtained before still holds `k` while a fresh one no longer does.
   */
  lemma KeysAreASnapshot(w: World, r: RegistryId, k: string)
    requires r < |w.registries| && !Manager.IsClosed(w, r) && ValidKey(k) && k in w.registries[r].table
    ensures var before := Manager.GetKeys(w, r).value;
      var after := Manager.GetKeys(Manager.CloseChild(w, r, k).world, r).value;
      k in before && after == before - {k}
  {
  }

  /**
   * A closed child's `close` throws Closed and changes nothing, so closing
   * twice fails the second time.
   */
  lemma CloseTwiceFails(w: World, id: ChildId)
    requires id < |w.children| && ParentLive(w, id) && Close(w, id).out.Ok?
    ensures Close(Close(w, id).world, id) == Step(Close(w, id).world, Err(Closed))
  {
  }

  /**
   * A child closing itself removes the entry bound under its key even when
   * that entry is a different child: removal is by key, not by identity.
   */
  lemma CloseRemovesByKey(w: World, id: ChildId, other: ChildId)
    requires id < |w.children| && other < |w.children| && other != id && ParentLive(w, id)
    requires Close(w, id).out.Ok?
    requires w.children[id].key.value in w.registries[w.children[id].parent.value].table
    requires w.registries[w.children[id].parent.value].table[w.children[id].key.value] == other
    ensures Close(w, id).world.children[other] == Release(w.children[other])
  {
  }
}
