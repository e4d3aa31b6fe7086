/**
 * Invariants of whole runs: every operation that changes the world keeps it
 * well-formed, a closed registry never changes again, and a registry is
 * closed exactly when a `close` on it has succeeded.
 */
module Invariants {
  import opened Wrappers
  import opened Model
  import Manageable
  import Manager
  import Lifecycle

  /** The operations that change the world; queries leave it as it is. */
  datatype Op =
    | NewRegistry
    | NewChild(cls: string)
    | Create(r: RegistryId, key: string, className: string)
    | CloseChild(r: RegistryId, key: string)
    | CloseRegistry(r: RegistryId)
    | Initialize(id: ChildId, parent: Option<RegistryId>, key: string)
    | CloseChildObject(id: ChildId)

  /**
   * The world after one operation, whether it returned or threw. An operation
   * naming an object that does not exist changes nothing: a Java program
   * cannot hold a reference to an object that was never built.
   */
  function Apply(w: World, op: Op, factory: Manager.Factory): (w': World)
    ensures |w'.registries| >= |w.registries| && |w'.children| >= |w.children|
  {
    match op
    case NewRegistry => Manager.New(w).0
    case NewChild(cls) => Manageable.New(w, cls).0
    case Create(r, key, className) =>
      if r < |w.registries| then Manager.Create(w, r, key, className, factory).world else w
    case CloseChild(r, key) =>
      if r < |w.registries| then Manager.CloseChild(w, r, key).world else w
    case CloseRegistry(r) =>
      if r < |w.registries| then Manager.Close(w, r).world else w
    case Initialize(id, parent, key) =>
      if id < |w.children| && (parent.Some? ==> parent.value < |w.registries|)
      then Manageable.Initialize(w, id, parent, key).world else w
    case CloseChildObject(id) =>
      if id < |w.children| && ParentLive(w, id) then Lifecycle.Close(w, id).world else w
  }

  /** The world after a sequence of operations, applied first to last. */
  function Run(w: World, ops: seq<Op>, factory: Manager.Factory): (w': World)
    ensures |w'.registries| >= |w.registries| && |w'.children| >= |w.children|
  {
    if ops == [] then w else Apply(Run(w, ops[..|ops| - 1], factory), ops[|ops| - 1], factory)
  }

  /** The world with no registry and no child. */
  function Empty(): (w: World)
    ensures Valid(w)
  {
    World([], [])
  }

  /** `create` keeps the world well-formed. */
  lemma CreatePreservesValid(w: World, r: RegistryId, key: string, className: string, factory: Manager.Factory)
    requires Valid(w) && r < |w.registries|
    ensures Valid(Manager.Create(w, r, key, className, factory).world)
  {
  }

  /** `closeChild` keeps the world well-formed. */
  lemma CloseChildPreservesValid(w: World, r: RegistryId, key: string)
    requires Valid(w) && r < |w.registries|
    ensures Valid(Manager.CloseChild(w, r, key).world)
  {
  }

  /** In a well-formed world, `close` on an open registry always succeeds. */
  lemma CloseSucceedsWhenOpen(w: World, r: RegistryId)
    requires Valid(w) && r < |w.registries| && !Manager.IsClosed(w, r)
    ensures Manager.Close(w, r).out.Ok?
  {
  }

  /** Registry `close` keeps the world well-formed. */
  lemma ClosePreservesValid(w: World, r: RegistryId)
    requires Valid(w) && r < |w.registries|
    ensures Valid(Manager.Close(w, r).world)
  {
  }

  /** `initialize` with an existing parent keeps the world well-formed. */
  lemma InitializePreservesValid(w: World, id: ChildId, parent: Option<RegistryId>, key: string)
    requires Valid(w) && id < |w.children| && (parent.Some? ==> parent.value < |w.registries|)
    ensures Valid(Manageable.Initialize(w, id, parent, key).world)
  {
  }

  /** A child's own `close` keeps the world well-formed. */
  lemma ChildClosePreservesValid(w: World, id: ChildId)
    requires Valid(w) && id < |w.children|
    ensures ParentLive(w, id)
    ensures Valid(Lifecycle.Close(w, id).world)
  {
  }

  /** Every operation keeps the world well-formed. */
  lemma ApplyPreservesValid(w: World, op: Op, factory: Manager.Factory)
    requires Valid(w)
    ensures Valid(Apply(w, op, factory))
  {
    match op
    case Create(r, key, className) =>
      if r < |w.registries| {
        CreatePreservesValid(w, r, key, className, factory);
      }
    case CloseChild(r, key) =>
      if r < |w.registries| {
        CloseChildPreservesValid(w, r, key);
      }
    case CloseRegistry(r) =>
      if r < |w.registries| {
        ClosePreservesValid(w, r);
      }
    case Initialize(id, parent, key) =>
      if id < |w.children| && (parent.Some? ==> parent.value < |w.registries|) {
        InitializePreservesValid(w, id, parent, key);
      }
    case CloseChildObject(id) =>
      if id < |w.children| {
        ChildClosePreservesValid(w, id);
      }
    case _ =>
  }

  /** Every run from a well-formed world ends in a well-formed world. */
  lemma {:induction false} RunPreservesValid(w: World, ops: seq<Op>, factory: Manager.Factory)
    requires Valid(w)
    ensures Valid(Run(w, ops, factory))
  {
    if ops != [] {
      RunPreservesValid(w, ops[..|ops| - 1], factory);
      ApplyPreservesValid(Run(w, ops[..|ops| - 1], factory), ops[|ops| - 1], factory);
    }
  }

  /** Every binding of `w'` is a binding of `w`: no table gained an entry. */
  predicate TablesShrink(w: World, w': World) {
    forall r, k :: 0 <= r < |w'.registries| && k in w'.registries[r].table ==>
      r < |w.registries| && k in w.registries[r].table && w'.registries[r].table[k] == w.registries[r].table[k]
  }

  /** Dropping bindings keeps owners single. */
  lemma ShrinkKeepsSingleOwner(w: World, w': World)
    requires SingleOwner(w) && TablesShrink(w, w')
    ensures SingleOwner(w')
  {
    forall r1, k1, r2, k2 |
      && 0 <= r1 < |w'.registries| && 0 <= r2 < |w'.registries|
      && k1 in w'.registries[r1].table && k2 in w'.registries[r2].table
      && w'.registries[r1].table[k1] == w'.registries[r2].table[k2]
      ensures r1 == r2 && k1 == k2
    {
      assert w.registries[r1].table[k1] == w.registries[r2].table[k2];
    }
  }

  /** `create` binds a child no table held before, so owners stay single. */
  lemma CreatePreservesSingleOwner(w: World, r: RegistryId, key: string, className: string, factory: Manager.Factory)
    requires Valid(w) && SingleOwner(w) && r < |w.registries|
    ensures SingleOwner(Manager.Create(w, r, key, className, factory).world)
  {
    var s := Manager.Create(w, r, key, className, factory);
    if s.out.Ok? {
      var w' := s.world;
      forall r1, k1, r2, k2 |
        && 0 <= r1 < |w'.registries| && 0 <= r2 < |w'.registries|
        && k1 in w'.registries[r1].table && k2 in w'.registries[r2].table
        && w'.registries[r1].table[k1] == w'.registries[r2].table[k2]
        ensures r1 == r2 && k1 == k2
      {
        assert RegistryValid(w.registries[r1], |w.children|);
        assert RegistryValid(w.registries[r2], |w.children|);
        if (r1, k1) != (r, key) && (r2, k2) != (r, key) {
          assert w.registries[r1].table[k1] == w.registries[r2].table[k2];
        }
      }
    }
  }

  /** Every operation keeps each child bound under at most one key of one registry. */
  lemma ApplyPreservesSingleOwner(w: World, op: Op, factory: Manager.Factory)
    requires Valid(w) && SingleOwner(w)
    ensures SingleOwner(Apply(w, op, factory))
  {
    var w' := Apply(w, op, factory);
    match op
    case Create(r, key, className) =>
      if r < |w.registries| {
        CreatePreservesSingleOwner(w, r, key, className, factory);
      }
    case CloseChildObject(id) =>
      if id < |w.children| && ParentLive(w, id) {
        var c := w.children[id];
        if !c.closed && c.parent.Some? && Lifecycle.Close(w, id).out.Ok? {
          assert TablesShrink(w, w') by {
            forall q, k | 0 <= q < |w'.registries| && k in w'.registries[q].table
              ensures k in w.registries[q].table && w'.registries[q].table[k] == w.registries[q].table[k]
            {
              if q != c.parent.value {
                assert w'.registries[q] == w.registries[q];
              }
            }
          }
        }
        ShrinkKeepsSingleOwner(w, w');
      }
    case _ =>
      ShrinkKeepsSingleOwner(w, w');
  }

  /** Every run from a well-formed world with single owners keeps single owners. */
  lemma {:induction false} RunPreservesSingleOwner(w: World, ops: seq<Op>, factory: Manager.Factory)
    requires Valid(w) && SingleOwner(w)
    ensures Valid(Run(w, ops, factory)) && SingleOwner(Run(w, ops, factory))
  {
    if ops != [] {
      var pre := ops[..|ops| - 1];
      RunPreservesSingleOwner(w, pre, factory);
      ApplyPreservesValid(Run(w, pre, factory), ops[|ops| - 1], factory);
      ApplyPreservesSingleOwner(Run(w, pre, factory), ops[|ops| - 1], factory);
    }
  }

  /** An injective table binds as many distinct children as it has keys. */
  lemma {:induction false} InjectiveTableSize(m: map<string, ChildId>)
    requires forall k1, k2 :: k1 in m && k2 in m && m[k1] == m[k2] ==> k1 == k2
    ensures |m.Values| == |m|
  {
    if m != map[] {
      var k :| k in m;
      var rest := m - {k};
      InjectiveTableSize(rest);
      assert m.Values == rest.Values + {m[k]} by {
        forall v | v in m.Values ensures v in rest.Values + {m[k]} {
          var k' :| k' in m && m[k'] == v;
          if k' != k {
            assert rest[k'] == v;
          }
        }
      }
      assert m[k] !in rest.Values;
      assert |rest| == |m| - 1 by {
        assert rest.Keys == m.Keys - {k};
      }
    }
  }

  /**
   * With single owners, closing a registry releases one distinct child per
   * bound key: as many children as `getChildCount` reported.
   */
  lemma CloseReleasesOnePerKey(w: World, r: RegistryId)
    requires Valid(w) && SingleOwner(w) && r < |w.registries| && !Manager.IsClosed(w, r)
    ensures |w.registries[r].table.Values| == Manager.GetChildCount(w, r).value
    ensures Manager.Close(w, r).out.Ok?
  {
    var m := w.registries[r].table;
    forall k1, k2 | k1 in m && k2 in m && m[k1] == m[k2] ensures k1 == k2 {
      assert w.registries[r].table[k1] == w.registries[r].table[k2];
    }
    InjectiveTableSize(m);
    CloseSucceedsWhenOpen(w, r);
  }

  /** No operation changes a closed registry: its table stays empty and its flag set. */
  lemma ClosedRegistryFrozen(w: World, op: Op, factory: Manager.Factory, r: RegistryId)
    requires r < |w.registries| && w.registries[r].closed
    ensures Apply(w, op, factory).registries[r] == w.registries[r]
  {
  }

  /** Only a successful `close` on the registry itself sets its closed flag. */
  lemma OnlyCloseCloses(w: World, op: Op, factory: Manager.Factory, r: RegistryId)
    requires r < |w.registries| && !w.registries[r].closed
    ensures Apply(w, op, factory).registries[r].closed <==> op == CloseRegistry(r) && Manager.Close(w, r).out.Ok?
  {
  }

  /** Operation `i` of `ops` is a `close` of `r` that succeeded. */
  ghost predicate ClosedAt(w: World, ops: seq<Op>, factory: Manager.Factory, r: RegistryId, i: nat)
    requires r < |w.registries| && i < |ops|
  {
    ops[i] == CloseRegistry(r) && Manager.Close(Run(w, ops[..i], factory), r).out.Ok?
  }

  /** Some operation of `ops` is a `close` of `r` that succeeded. */
  ghost predicate ClosedDuring(w: World, ops: seq<Op>, factory: Manager.Factory, r: RegistryId)
    requires r < |w.registries|
  {
    exists i: nat :: i < |ops| && ClosedAt(w, ops, factory, r, i)
  }

  /** An operation before the last one closed `r` in a run exactly when it did so in the run's prefix. */
  lemma ClosedAtPrefix(w: World, ops: seq<Op>, factory: Manager.Factory, r: RegistryId, i: nat)
    requires r < |w.registries| && i < |ops| - 1
    ensures ClosedAt(w, ops, factory, r, i) <==> ClosedAt(w, ops[..|ops| - 1], factory, r, i)
  {
    assert ops[..|ops| - 1][..i] == ops[..i];
  }

  /** A run closed `r` when its prefix did or its last operation did. */
  lemma ClosedDuringSplit(w: World, ops: seq<Op>, factory: Manager.Factory, r: RegistryId)
    requires r < |w.registries| && ops != []
    ensures ClosedDuring(w, ops, factory, r) <==>
      ClosedDuring(w, ops[..|ops| - 1], factory, r) || ClosedAt(w, ops, factory, r, |ops| - 1)
  {
    var pre := ops[..|ops| - 1];
    if ClosedDuring(w, ops, factory, r) {
      var i: nat :| i < |ops| && ClosedAt(w, ops, factory, r, i);
      if i < |pre| {
        ClosedAtPrefix(w, ops, factory, r, i);
      }
    }
    if ClosedDuring(w, pre, factory, r) {
      var i: nat :| i < |pre| && ClosedAt(w, pre, factory, r, i);
      ClosedAtPrefix(w, ops, factory, r, i);
    }
  }

  /**
   * `isClosed` is true exactly when the registry has been closed: starting
   * from an open registry, it is closed after a run exactly when some `close`
   * on it succeeded during the run.
   */
  lemma {:induction false} IsClosedExactlyAfterClose(w: World, ops: seq<Op>, factory: Manager.Factory, r: RegistryId)
    requires r < |w.registries| && !w.registries[r].closed
    ensures r < |Run(w, ops, factory).registries|
    ensures Manager.IsClosed(Run(w, ops, factory), r) <==> ClosedDuring(w, ops, factory, r)
  {
    if ops == [] {
      assert Run(w, ops, factory) == w;
    } else {
      var n := |ops| - 1;
      var pre := ops[..n];
      IsClosedExactlyAfterClose(w, pre, factory, r);
      ClosedDuringSplit(w, ops, factory, r);
      var mid := Run(w, pre, factory);
      if mid.registries[r].closed {
        ClosedRegistryFrozen(mid, ops[n], factory, r);
      } else {
        OnlyCloseCloses(mid, ops[n], factory, r);
      }
    }
  }

  /** Inside `create`, `initialize` cannot fail, so no entry is left bound but uninitialised. */
  lemma CreateNeverOrphans(w: World, r: RegistryId, key: string, className: string, factory: Manager.Factory)
    requires r < |w.registries| && ValidKey(key)
    ensures var stored := Manager.LoadAndStore(w, r, key, className, factory);
      stored.out.Ok? ==>
        && stored.out.value < |stored.world.children|
        && Manageable.Initialize(stored.world, stored.out.value, Some(r), key).out.Ok?
  {
  }
}
