/**
 * The per-class instance registry of widget.js, as values: a table from
 * (instance key, element) to the widget instance stored in that element
 * property, and the effect of the bulk operations initAll and deleteAll on
 * that table and on the log of lifecycle calls.
 */
module Registry {
  import opened Wrappers

  /** A DOM element, known only by its identity. */
  type ElementId = nat

  /**
   * A widget object: `serial` is its allocation number (object identity) and
   * `element` the element its constructor stored.
   */
  datatype Instance = Instance(serial: nat, element: ElementId)

  /** The property `key` of element `element`. */
  datatype Slot = Slot(key: string, element: ElementId)

  /** Every registry property on every element. */
  type Table = map<Slot, Instance>

  /**
   * One observable step: a constructor run, a `refresh()` or `destroy()` on an
   * instance (tagged with the element the scan was visiting), or a write to
   * the registry.
   */
  datatype Call =
    | Created(inst: Instance)
    | Refreshed(element: ElementId, inst: Instance)
    | Destroyed(element: ElementId, inst: Instance)
    | Stored(slot: Slot, inst: Instance)
    | Deleted(slot: Slot)

  /** Every registered instance is an object that has already been constructed. */
  ghost predicate Constructed(t: Table, constructed: nat) {
    forall s :: s in t ==> t[s].serial < constructed
  }

  /** `element[key] || null`: the stored instance, or none when the slot is empty. */
  function Lookup(t: Table, key: string, e: ElementId): (r: Option<Instance>)
    ensures r.Some? <==> Slot(key, e) in t
    ensures r.Some? ==> r.value == t[Slot(key, e)]
  {
    if Slot(key, e) in t then Some(t[Slot(key, e)]) else None
  }

  /** `element[key] = instance`: overwrites whatever the slot held. */
  function Store(t: Table, key: string, e: ElementId, w: Instance): (r: Table)
    ensures Lookup(r, key, e) == Some(w)
    ensures forall k, x :: k != key || x != e ==> Lookup(r, k, x) == Lookup(t, k, x)
  {
    t[Slot(key, e) := w]
  }

  /** `delete element[key]`: empties the slot; a no-op when it already is empty. */
  function Remove(t: Table, key: string, e: ElementId): (r: Table)
    ensures Lookup(r, key, e) == None
    ensures forall k, x :: k != key || x != e ==> Lookup(r, k, x) == Lookup(t, k, x)
    ensures Lookup(t, key, e) == None ==> r == t
  {
    t - {Slot(key, e)}
  }

  /** The registry, the allocation counter and the calls made so far by one bulk operation. */
  datatype Effect = Effect(table: Table, constructed: nat, calls: seq<Call>)

  /**
   * One pass of initAll's loop body for element `e`: refresh the registered
   * instance, or construct one for `e` and register it.
   */
  function InitStep(s: Effect, key: string, e: ElementId): (r: Effect)
    ensures Slot(key, e) in r.table
    ensures forall sl :: sl in s.table ==> sl in r.table && r.table[sl] == s.table[sl]
    ensures s.constructed <= r.constructed <= s.constructed + 1
    ensures s.calls <= r.calls
  {
    match Lookup(s.table, key, e)
    case Some(w) => s.(calls := s.calls + [Refreshed(e, w)])
    case None =>
      var w := Instance(s.constructed, e);
      Effect(Store(s.table, key, e, w), s.constructed + 1, s.calls + [Created(w), Stored(Slot(key, e), w)])
  }

  /** initAll's loop run over `elems` in order, from registry `t` with `constructed` objects built so far. */
  function InitAllEffect(t: Table, constructed: nat, key: string, elems: seq<ElementId>): (r: Effect)
    ensures forall x :: x in elems ==> Slot(key, x) in r.table
    ensures forall s :: s in t ==> s in r.table && r.table[s] == t[s]
    decreases |elems|
  {
    if elems == [] then Effect(t, constructed, [])
    else InitStep(InitAllEffect(t, constructed, key, elems[..|elems| - 1]), key, elems[|elems| - 1])
  }

  /** initAll over one more element is one more pass of the loop body. */
  lemma InitAllSnoc(t: Table, constructed: nat, key: string, elems: seq<ElementId>, i: nat)
    requires i < |elems|
    ensures InitAllEffect(t, constructed, key, elems[..i + 1])
         == InitStep(InitAllEffect(t, constructed, key, elems[..i]), key, elems[i])
  {
    assert elems[..i + 1][..i] == elems[..i];
  }

  /**
   * One pass of deleteAll's loop body for element `e`: skip an empty slot,
   * otherwise destroy the instance and then empty the slot.
   */
  function DeleteStep(s: Effect, key: string, e: ElementId): (r: Effect)
    ensures forall sl :: sl in r.table <==> sl in s.table && sl != Slot(key, e)
    ensures forall sl :: sl in r.table ==> r.table[sl] == s.table[sl]
    ensures r.constructed == s.constructed
    ensures s.calls <= r.calls
  {
    match Lookup(s.table, key, e)
    case None => s
    case Some(w) => s.(table := Remove(s.table, key, e), calls := s.calls + [Destroyed(e, w), Deleted(Slot(key, e))])
  }

  /** deleteAll's loop run over `elems` in order. */
  function DeleteAllEffect(t: Table, constructed: nat, key: string, elems: seq<ElementId>): (r: Effect)
    ensures forall x :: x in elems ==> Slot(key, x) !in r.table
    ensures forall s :: s in r.table ==> s in t && r.table[s] == t[s]
    ensures r.constructed == constructed
    decreases |elems|
  {
    if elems == [] then Effect(t, constructed, [])
    else DeleteStep(DeleteAllEffect(t, constructed, key, elems[..|elems| - 1]), key, elems[|elems| - 1])
  }

  /** deleteAll over one more element is one more pass of the loop body. */
  lemma DeleteAllSnoc(t: Table, constructed: nat, key: string, elems: seq<ElementId>, i: nat)
    requires i < |elems|
    ensures DeleteAllEffect(t, constructed, key, elems[..i + 1])
         == DeleteStep(DeleteAllEffect(t, constructed, key, elems[..i]), key, elems[i])
  {
    assert elems[..i + 1][..i] == elems[..i];
  }

  /**
   * Beyond what InitAllEffect promises (every scanned element has an instance
   * and no registered one is replaced): the only slots added are those of scanned
   * elements, each holding a newly constructed instance bound to its element;
   * and nothing is constructed exactly when every scanned element was
   * registered already.
   */
  lemma {:induction false} InitAllTable(t: Table, constructed: nat, key: string, elems: seq<ElementId>)
    ensures var r := InitAllEffect(t, constructed, key, elems);
      && constructed <= r.constructed
      && (forall s :: s in r.table && s !in t ==>
            s.key == key && s.element in elems && r.table[s].element == s.element
            && constructed <= r.table[s].serial < r.constructed)
      && (r.constructed == constructed <==> forall e :: e in elems ==> Slot(key, e) in t)
      && (Constructed(t, constructed) ==> Constructed(r.table, r.constructed))
    decreases |elems|
  {
    if elems != [] {
      var prefix, x := elems[..|elems| - 1], elems[|elems| - 1];
      assert elems == prefix + [x];
      InitAllTable(t, constructed, key, prefix);
    }
  }

  /**
   * The order of initAll's calls `r.calls`: only constructions, refreshes and
   * registrations; each construction is of a new object for a scanned
   * element that had no instance, and is followed at once by registering
   * that object on it; nothing is registered that was not constructed just
   * before; every refresh goes to the instance registered on the element
   * being visited; and every object constructed is still registered on its
   * element at the end, so none is overwritten.
   */
  ghost predicate InitOrdered(t: Table, constructed: nat, key: string, elems: seq<ElementId>, r: Effect) {
    var c := r.calls;
    && (forall i :: 0 <= i < |c| ==> c[i].Created? || c[i].Refreshed? || c[i].Stored?)
    && (forall i :: 0 <= i < |c| && c[i].Created? ==>
          c[i].inst.element in elems && Slot(key, c[i].inst.element) !in t
          && constructed <= c[i].inst.serial < r.constructed
          && i + 1 < |c| && c[i + 1] == Stored(Slot(key, c[i].inst.element), c[i].inst))
    && (forall i :: 0 <= i < |c| && c[i].Stored? ==> 0 < i && c[i - 1] == Created(c[i].inst))
    && (forall i :: 0 <= i < |c| && c[i].Refreshed? ==>
          Slot(key, c[i].element) in r.table && c[i].inst == r.table[Slot(key, c[i].element)])
    && (forall i :: 0 <= i < |c| && c[i].Created? ==>
          Slot(key, c[i].inst.element) in r.table && r.table[Slot(key, c[i].inst.element)] == c[i].inst)
  }

  /** A visit that finds an instance keeps InitOrdered. */
  lemma InitOrderedRefreshStep(t: Table, constructed: nat, key: string, prefix: seq<ElementId>, x: ElementId, p: Effect)
    requires Slot(key, x) in p.table
    requires InitOrdered(t, constructed, key, prefix, p)
    ensures InitOrdered(t, constructed, key, prefix + [x], InitStep(p, key, x))
  {
    var r := InitStep(p, key, x);
    var c := r.calls;
    assert r == p.(calls := p.calls + [Refreshed(x, p.table[Slot(key, x)])]);
    forall i | 0 <= i < |c| && c[i].Created?
      ensures i + 1 < |c| && c[i + 1] == Stored(Slot(key, c[i].inst.element), c[i].inst)
    {
      assert c[i] == p.calls[i];
    }
  }

  /** A visit that constructs an instance keeps InitOrdered. */
  lemma InitOrderedCreateStep(t: Table, constructed: nat, key: string, prefix: seq<ElementId>, x: ElementId, p: Effect)
    requires forall s :: s in t ==> s in p.table
    requires constructed <= p.constructed
    requires Slot(key, x) !in p.table
    requires InitOrdered(t, constructed, key, prefix, p)
    ensures InitOrdered(t, constructed, key, prefix + [x], InitStep(p, key, x))
  {
    var r := InitStep(p, key, x);
    var c := r.calls;
    var w := Instance(p.constructed, x);
    assert r == Effect(p.table[Slot(key, x) := w], p.constructed + 1, p.calls + [Created(w), Stored(Slot(key, x), w)]);
    forall i | 0 <= i < |c| && c[i].Created?
      ensures c[i].inst.element in prefix + [x] && Slot(key, c[i].inst.element) !in t
      ensures constructed <= c[i].inst.serial < r.constructed
      ensures i + 1 < |c| && c[i + 1] == Stored(Slot(key, c[i].inst.element), c[i].inst)
    {
      if i < |p.calls| {
        assert c[i] == p.calls[i] && c[i + 1] == p.calls[i + 1];
      }
    }
    forall i | 0 <= i < |c| && c[i].Stored?
      ensures 0 < i && c[i - 1] == Created(c[i].inst)
    {
      if i < |p.calls| {
        assert c[i] == p.calls[i] && c[i - 1] == p.calls[i - 1];
      }
    }
    forall i | 0 <= i < |c| && c[i].Refreshed?
      ensures Slot(key, c[i].element) in r.table && c[i].inst == r.table[Slot(key, c[i].element)]
    {
      assert c[i] == p.calls[i];
    }
  }

  /** initAll's calls come in the order InitOrdered describes. */
  lemma {:induction false} InitAllOrder(t: Table, constructed: nat, key: string, elems: seq<ElementId>)
    ensures InitOrdered(t, constructed, key, elems, InitAllEffect(t, constructed, key, elems))
    decreases |elems|
  {
    if elems != [] {
      var prefix, x := elems[..|elems| - 1], elems[|elems| - 1];
      assert elems == prefix + [x];
      InitAllTable(t, constructed, key, prefix);
      InitAllOrder(t, constructed, key, prefix);
      var p := InitAllEffect(t, constructed, key, prefix);
      if Slot(key, x) in p.table {
        InitOrderedRefreshStep(t, constructed, key, prefix, x, p);
      } else {
        InitOrderedCreateStep(t, constructed, key, prefix, x, p);
      }
    }
  }

  /** Each element registered before the scan is refreshed once per occurrence in it. */
  ghost predicate RefreshedPerOccurrence(t: Table, key: string, elems: seq<ElementId>, r: Effect) {
    forall e :: Slot(key, e) in t ==> multiset(r.calls)[Refreshed(e, t[Slot(key, e)])] == multiset(elems)[e]
  }

  /** One visit of initAll keeps RefreshedPerOccurrence when registered instances are still in place. */
  lemma RefreshedPerOccurrenceStep(t: Table, key: string, prefix: seq<ElementId>, x: ElementId, p: Effect)
    requires forall s :: s in t ==> s in p.table && p.table[s] == t[s]
    requires RefreshedPerOccurrence(t, key, prefix, p)
    ensures RefreshedPerOccurrence(t, key, prefix + [x], InitStep(p, key, x))
  {
    var r := InitStep(p, key, x);
    assert multiset(prefix + [x]) == multiset(prefix) + multiset{x};
    if Slot(key, x) in p.table {
      var w := p.table[Slot(key, x)];
      assert multiset(r.calls) == multiset(p.calls) + multiset{Refreshed(x, w)};
    } else {
      var w := Instance(p.constructed, x);
      assert multiset(r.calls) == multiset(p.calls) + multiset{Created(w), Stored(Slot(key, x), w)};
    }
  }

  /**
   * initAll leaves alone what was registered: an element registered before
   * the scan is refreshed once per occurrence in it (and, by InitAllOrder,
   * nothing is constructed for it).
   */
  lemma {:induction false} InitAllRefreshesRegistered(t: Table, constructed: nat, key: string, elems: seq<ElementId>)
    ensures RefreshedPerOccurrence(t, key, elems, InitAllEffect(t, constructed, key, elems))
    decreases |elems|
  {
    if elems != [] {
      var prefix, x := elems[..|elems| - 1], elems[|elems| - 1];
      assert elems == prefix + [x];
      InitAllTable(t, constructed, key, prefix);
      InitAllRefreshesRegistered(t, constructed, key, prefix);
      RefreshedPerOccurrenceStep(t, key, prefix, x, InitAllEffect(t, constructed, key, prefix));
    }
  }

  /**
   * Every instance initAll registered on an element without one was
   * constructed during the scan, and every refresh of such an instance comes
   * after its construction.
   */
  ghost predicate CreatedBeforeRefreshed(t: Table, key: string, r: Effect) {
    var c := r.calls;
    && (forall s :: s in r.table && s !in t ==> exists j :: 0 <= j < |c| && c[j] == Created(r.table[s]))
    && (forall i :: 0 <= i < |c| && c[i].Refreshed? && Slot(key, c[i].element) !in t ==>
          exists j :: 0 <= j < i && c[j] == Created(c[i].inst))
  }

  /** A visit that finds an instance keeps CreatedBeforeRefreshed. */
  lemma CreatedBeforeRefreshedRefreshStep(t: Table, key: string, x: ElementId, p: Effect)
    requires Slot(key, x) in p.table
    requires CreatedBeforeRefreshed(t, key, p)
    ensures CreatedBeforeRefreshed(t, key, InitStep(p, key, x))
  {
    var r := InitStep(p, key, x);
    var c, n := r.calls, |p.calls|;
    assert r == p.(calls := p.calls + [Refreshed(x, p.table[Slot(key, x)])]);
    forall s | s in r.table && s !in t
      ensures exists j :: 0 <= j < |c| && c[j] == Created(r.table[s])
    {
      var j :| 0 <= j < n && p.calls[j] == Created(p.table[s]);
      assert c[j] == p.calls[j];
    }
    forall i | 0 <= i < |c| && c[i].Refreshed? && Slot(key, c[i].element) !in t
      ensures exists j :: 0 <= j < i && c[j] == Created(c[i].inst)
    {
      var j;
      if i < n {
        assert c[i] == p.calls[i];
        j :| 0 <= j < i && p.calls[j] == Created(p.calls[i].inst);
      } else {
        j :| 0 <= j < n && p.calls[j] == Created(p.table[Slot(key, x)]);
      }
      assert c[j] == p.calls[j];
    }
  }

  /** A visit that constructs an instance keeps CreatedBeforeRefreshed. */
  lemma CreatedBeforeRefreshedCreateStep(t: Table, key: string, x: ElementId, p: Effect)
    requires Slot(key, x) !in p.table
    requires CreatedBeforeRefreshed(t, key, p)
    ensures CreatedBeforeRefreshed(t, key, InitStep(p, key, x))
  {
    var r := InitStep(p, key, x);
    var c, n := r.calls, |p.calls|;
    var w := Instance(p.constructed, x);
    assert r == Effect(p.table[Slot(key, x) := w], p.constructed + 1, p.calls + [Created(w), Stored(Slot(key, x), w)]);
    forall s | s in r.table && s !in t
      ensures exists j :: 0 <= j < |c| && c[j] == Created(r.table[s])
    {
      if s == Slot(key, x) {
        assert c[n] == Created(w);
      } else {
        var j :| 0 <= j < n && p.calls[j] == Created(p.table[s]);
        assert c[j] == p.calls[j];
      }
    }
    forall i | 0 <= i < |c| && c[i].Refreshed? && Slot(key, c[i].element) !in t
      ensures exists j :: 0 <= j < i && c[j] == Created(c[i].inst)
    {
      assert i < n && c[i] == p.calls[i];
      var j :| 0 <= j < i && p.calls[j] == Created(p.calls[i].inst);
      assert c[j] == p.calls[j];
    }
  }

  /** The induction behind the ordering half of InitAllCreatesOnce. */
  lemma {:induction false} InitAllCreatedBeforeRefreshed(t: Table, constructed: nat, key: string, elems: seq<ElementId>)
    ensures CreatedBeforeRefreshed(t, key, InitAllEffect(t, constructed, key, elems))
    decreases |elems|
  {
    if elems != [] {
      var prefix, x := elems[..|elems| - 1], elems[|elems| - 1];
      assert elems == prefix + [x];
      InitAllCreatedBeforeRefreshed(t, constructed, key, prefix);
      var p := InitAllEffect(t, constructed, key, prefix);
      if Slot(key, x) in p.table {
        CreatedBeforeRefreshedRefreshStep(t, key, x, p);
      } else {
        CreatedBeforeRefreshedCreateStep(t, key, x, p);
      }
    }
  }

  /** Each unregistered scanned element has one instance, constructed once and refreshed on every later visit. */
  ghost predicate CreatedOnce(t: Table, key: string, elems: seq<ElementId>, r: Effect) {
    forall e :: e in elems && Slot(key, e) !in t ==>
      && Slot(key, e) in r.table
      && multiset(r.calls)[Created(r.table[Slot(key, e)])] == 1
      && multiset(r.calls)[Refreshed(e, r.table[Slot(key, e)])] == multiset(elems)[e] - 1
  }

  /** A visit that finds an instance keeps CreatedOnce. */
  lemma InitCreatedOnceRefreshStep(t: Table, key: string, prefix: seq<ElementId>, x: ElementId, p: Effect)
    requires forall s :: s in p.table && s !in t ==> s.element in prefix
    requires Slot(key, x) in p.table
    requires CreatedOnce(t, key, prefix, p)
    ensures CreatedOnce(t, key, prefix + [x], InitStep(p, key, x))
  {
  }

  /** A visit that constructs an instance keeps CreatedOnce. */
  lemma InitCreatedOnceCreateStep(t: Table, key: string, prefix: seq<ElementId>, x: ElementId, p: Effect)
    requires forall s :: s in t ==> s in p.table
    requires forall s :: s in p.table && s !in t ==> p.table[s].element == s.element
    requires forall e :: e in prefix ==> Slot(key, e) in p.table
    requires forall i :: 0 <= i < |p.calls| && p.calls[i].Created? ==> p.calls[i].inst.serial < p.constructed
    requires forall i :: 0 <= i < |p.calls| && p.calls[i].Refreshed? ==> Slot(key, p.calls[i].element) in p.table
    requires Slot(key, x) !in p.table
    requires CreatedOnce(t, key, prefix, p)
    ensures CreatedOnce(t, key, prefix + [x], InitStep(p, key, x))
  {
  }

  /**
   * initAll gives an element that had no instance exactly one, constructed
   * once and refreshed on each later occurrence in the scan; every such
   * refresh comes after the construction; and every object constructed is
   * the one left registered on its element, so no other is constructed for it.
   */
  lemma InitAllCreatesOnce(t: Table, constructed: nat, key: string, elems: seq<ElementId>)
    requires Constructed(t, constructed)
    ensures CreatedOnce(t, key, elems, InitAllEffect(t, constructed, key, elems))
    ensures var c := InitAllEffect(t, constructed, key, elems).calls;
      forall i :: 0 <= i < |c| && c[i].Refreshed? && Slot(key, c[i].element) !in t ==>
        exists j :: 0 <= j < i && c[j] == Created(c[i].inst)
    ensures var r := InitAllEffect(t, constructed, key, elems);
      forall i :: 0 <= i < |r.calls| && r.calls[i].Created? ==>
        Slot(key, r.calls[i].inst.element) in r.table && r.calls[i].inst == r.table[Slot(key, r.calls[i].inst.element)]
  {
    InitAllCountsCreations(t, constructed, key, elems);
    InitAllCreatedBeforeRefreshed(t, constructed, key, elems);
    InitAllOrder(t, constructed, key, elems);
  }

  /** The induction behind the counting half of InitAllCreatesOnce. */
  lemma {:induction false} InitAllCountsCreations(t: Table, constructed: nat, key: string, elems: seq<ElementId>)
    requires Constructed(t, constructed)
    ensures CreatedOnce(t, key, elems, InitAllEffect(t, constructed, key, elems))
    decreases |elems|
  {
    if elems != [] {
      var prefix, x := elems[..|elems| - 1], elems[|elems| - 1];
      assert elems == prefix + [x];
      InitAllTable(t, constructed, key, prefix);
      InitAllOrder(t, constructed, key, prefix);
      InitAllCountsCreations(t, constructed, key, prefix);
      var p := InitAllEffect(t, constructed, key, prefix);
      if Slot(key, x) in p.table {
        InitCreatedOnceRefreshStep(t, key, prefix, x, p);
      } else {
        InitCreatedOnceCreateStep(t, key, prefix, x, p);
      }
    }
  }

  /**
   * After deleteAll no scanned element has an instance under `key`, and every
   * other slot, under this key or another, keeps its instance.
   */
  lemma {:induction false} DeleteAllTable(t: Table, constructed: nat, key: string, elems: seq<ElementId>)
    ensures var r := DeleteAllEffect(t, constructed, key, elems);
      && r.constructed == constructed
      && (forall s :: s in r.table <==> s in t && !(s.key == key && s.element in elems))
      && (forall s :: s in r.table ==> r.table[s] == t[s])
    decreases |elems|
  {
    if elems != [] {
      var prefix, x := elems[..|elems| - 1], elems[|elems| - 1];
      assert elems == prefix + [x];
      DeleteAllTable(t, constructed, key, prefix);
    }
  }

  /**
   * The order of deleteAll's calls `c`: only destructions and removals; each
   * destruction is of the instance registered before the scan on a scanned
   * element and is followed at once by emptying that element's slot; and no
   * slot is emptied without that destruction just before it.
   */
  ghost predicate DeleteOrdered(t: Table, key: string, elems: seq<ElementId>, c: seq<Call>) {
    && (forall i :: 0 <= i < |c| ==> c[i].Destroyed? || c[i].Deleted?)
    && (forall i :: 0 <= i < |c| && c[i].Destroyed? ==>
          c[i].element in elems && Slot(key, c[i].element) in t && c[i].inst == t[Slot(key, c[i].element)]
          && i + 1 < |c| && c[i + 1] == Deleted(Slot(key, c[i].element)))
    && (forall i :: 0 <= i < |c| && c[i].Deleted? ==>
          0 < i && c[i - 1].Destroyed? && c[i].slot == Slot(key, c[i - 1].element))
  }

  /** A visit that destroys an instance keeps DeleteOrdered. */
  lemma DeleteOrderedDestroyStep(t: Table, key: string, prefix: seq<ElementId>, x: ElementId, p: seq<Call>, w: Instance)
    requires Slot(key, x) in t && w == t[Slot(key, x)]
    requires DeleteOrdered(t, key, prefix, p)
    ensures DeleteOrdered(t, key, prefix + [x], p + [Destroyed(x, w), Deleted(Slot(key, x))])
  {
    var c := p + [Destroyed(x, w), Deleted(Slot(key, x))];
    forall i | 0 <= i < |c| && c[i].Destroyed?
      ensures c[i].element in prefix + [x] && Slot(key, c[i].element) in t && c[i].inst == t[Slot(key, c[i].element)]
      ensures i + 1 < |c| && c[i + 1] == Deleted(Slot(key, c[i].element))
    {
      if i < |p| {
        assert c[i] == p[i];
        if i + 1 < |p| {
          assert c[i + 1] == p[i + 1];
        }
      }
    }
    forall i | 0 <= i < |c| && c[i].Deleted?
      ensures 0 < i && c[i - 1].Destroyed? && c[i].slot == Slot(key, c[i - 1].element)
    {
      if i < |p| {
        assert c[i] == p[i] && c[i - 1] == p[i - 1];
      }
    }
  }

  /** deleteAll's calls come in the order DeleteOrdered describes. */
  lemma {:induction false} DeleteAllOrder(t: Table, constructed: nat, key: string, elems: seq<ElementId>)
    ensures DeleteOrdered(t, key, elems, DeleteAllEffect(t, constructed, key, elems).calls)
    decreases |elems|
  {
    if elems != [] {
      var prefix, x := elems[..|elems| - 1], elems[|elems| - 1];
      assert elems == prefix + [x];
      DeleteAllTable(t, constructed, key, prefix);
      DeleteAllOrder(t, constructed, key, prefix);
      var p := DeleteAllEffect(t, constructed, key, prefix);
      if Slot(key, x) in p.table {
        assert p.table[Slot(key, x)] == t[Slot(key, x)];
        DeleteOrderedDestroyStep(t, key, prefix, x, p.calls, p.table[Slot(key, x)]);
      }
    }
  }

  /** Each registered scanned element has its instance destroyed exactly once. */
  ghost predicate DestroyedOnce(t: Table, key: string, elems: seq<ElementId>, c: seq<Call>) {
    forall e :: e in elems && Slot(key, e) in t ==> multiset(c)[Destroyed(e, t[Slot(key, e)])] == 1
  }

  /** A visit that destroys the instance of an element not scanned before keeps DestroyedOnce. */
  lemma DestroyedOnceStep(t: Table, key: string, prefix: seq<ElementId>, x: ElementId, p: seq<Call>, w: Instance)
    requires Slot(key, x) in t && w == t[Slot(key, x)] && x !in prefix
    requires DeleteOrdered(t, key, prefix, p)
    requires DestroyedOnce(t, key, prefix, p)
    ensures DestroyedOnce(t, key, prefix + [x], p + [Destroyed(x, w), Deleted(Slot(key, x))])
  {
    assert Destroyed(x, w) !in p by {
      forall i | 0 <= i < |p| ensures p[i] != Destroyed(x, w) {
        if p[i].Destroyed? {
          assert p[i].element in prefix;
        }
      }
    }
    assert multiset(p + [Destroyed(x, w), Deleted(Slot(key, x))]) == multiset(p) + multiset{Destroyed(x, w), Deleted(Slot(key, x))};
  }

  /** deleteAll destroys the instance of each registered scanned element exactly once, whatever the repetitions in the scan. */
  lemma {:induction false} DeleteAllDestroysOnce(t: Table, constructed: nat, key: string, elems: seq<ElementId>)
    ensures DestroyedOnce(t, key, elems, DeleteAllEffect(t, constructed, key, elems).calls)
    decreases |elems|
  {
    if elems != [] {
      var prefix, x := elems[..|elems| - 1], elems[|elems| - 1];
      assert elems == prefix + [x];
      DeleteAllTable(t, constructed, key, prefix);
      DeleteAllOrder(t, constructed, key, prefix);
      DeleteAllDestroysOnce(t, constructed, key, prefix);
      var p := DeleteAllEffect(t, constructed, key, prefix);
      if Slot(key, x) in p.table {
        assert x !in prefix && p.table[Slot(key, x)] == t[Slot(key, x)];
        DestroyedOnceStep(t, key, prefix, x, p.calls, p.table[Slot(key, x)]);
      }
    }
  }

  /**
   * Two widget classes with different keys do not disturb each other: a bulk
   * operation of one leaves every lookup of the other as it was.
   */
  lemma OtherClassesUnaffected(t: Table, constructed: nat, key: string, other: string, elems: seq<ElementId>)
    requires other != key
    ensures forall e :: Lookup(InitAllEffect(t, constructed, key, elems).table, other, e) == Lookup(t, other, e)
    ensures forall e :: Lookup(DeleteAllEffect(t, constructed, key, elems).table, other, e) == Lookup(t, other, e)
  {
  }

  /** initAll over elements that all have an instance changes no slot, constructs nothing and only refreshes. */
  lemma {:induction false} InitAllOverRegistered(t: Table, constructed: nat, key: string, elems: seq<ElementId>)
    requires forall e :: e in elems ==> Slot(key, e) in t
    ensures var r := InitAllEffect(t, constructed, key, elems);
      && r.table == t && r.constructed == constructed
      && forall i :: 0 <= i < |r.calls| ==> r.calls[i].Refreshed?
    decreases |elems|
  {
    if elems != [] {
      var prefix, x := elems[..|elems| - 1], elems[|elems| - 1];
      assert elems == prefix + [x];
      InitAllOverRegistered(t, constructed, key, prefix);
    }
  }

  /** A second initAll over the same scan changes no slot, constructs nothing and only refreshes. */
  lemma {:induction false} InitAllIdempotent(t: Table, constructed: nat, key: string, elems: seq<ElementId>)
    ensures var r1 := InitAllEffect(t, constructed, key, elems);
      var r2 := InitAllEffect(r1.table, r1.constructed, key, elems);
      && r2.table == r1.table && r2.constructed == r1.constructed
      && forall i :: 0 <= i < |r2.calls| ==> r2.calls[i].Refreshed?
  {
    var r1 := InitAllEffect(t, constructed, key, elems);
    InitAllOverRegistered(r1.table, r1.constructed, key, elems);
  }

  /** deleteAll over elements none of which has an instance makes no call and changes nothing. */
  lemma {:induction false} DeleteAllSkipsUnregistered(t: Table, constructed: nat, key: string, elems: seq<ElementId>)
    requires forall e :: e in elems ==> Slot(key, e) !in t
    ensures DeleteAllEffect(t, constructed, key, elems) == Effect(t, constructed, [])
    decreases |elems|
  {
    if elems != [] {
      var prefix, x := elems[..|elems| - 1], elems[|elems| - 1];
      assert elems == prefix + [x];
      DeleteAllSkipsUnregistered(t, constructed, key, prefix);
    }
  }

  /** A second deleteAll over the same scan finds nothing to destroy and changes nothing. */
  lemma {:induction false} DeleteAllIdempotent(t: Table, constructed: nat, key: string, elems: seq<ElementId>)
    ensures var r1 := DeleteAllEffect(t, constructed, key, elems);
      var r2 := DeleteAllEffect(r1.table, r1.constructed, key, elems);
      r2.table == r1.table && r2.calls == []
  {
    var r1 := DeleteAllEffect(t, constructed, key, elems);
    DeleteAllTable(t, constructed, key, elems);
    DeleteAllTable(r1.table, r1.constructed, key, elems);
    DeleteAllSkipsUnregistered(r1.table, r1.constructed, key, elems);
  }

  /**
   * deleteAll after initAll over the same scan leaves exactly what deleteAll
   * alone would: every instance initAll registered is unregistered again.
   */
  lemma {:induction false} DeleteAllUndoesInitAll(t: Table, constructed: nat, key: string, elems: seq<ElementId>)
    ensures var r1 := InitAllEffect(t, constructed, key, elems);
      DeleteAllEffect(r1.table, r1.constructed, key, elems).table == DeleteAllEffect(t, constructed, key, elems).table
  {
    var r1 := InitAllEffect(t, constructed, key, elems);
    InitAllTable(t, constructed, key, elems);
    DeleteAllTable(r1.table, r1.constructed, key, elems);
    DeleteAllTable(t, constructed, key, elems);
  }
}
