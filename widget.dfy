/**
 * The Widget base class of widget.js: the class-level registry primitives,
 * the memoised instance key, the instance factory and the two bulk lifecycle
 * operations, as methods that update a page's element properties in place.
 */
module Widgets {
  import opened Wrappers
  import opened InstanceKeys
  import opened Registry

  /** The message the base findAll throws. */
  const NotImplemented: string := "Method 'findAll' is not implemented"

  /**
   * A class's findAll: the base one, or a subclass override, given as the
   * sequence of elements its query finds under each root.
   */
  datatype Finder = Inherited | Overridden(query: ElementId -> seq<ElementId>)

  /**
   * The page: the registry properties of every element, the number of
   * widget objects constructed so far (serials below it are taken), and the
   * ghost log of lifecycle calls and registry writes.
   */
  class Page {
    var table: Table
    var constructed: nat
    ghost var log: seq<Call>

    /** Every registered instance has been constructed. */
    ghost predicate Valid()
      reads this
    {
      Constructed(table, constructed)
    }

    /** The page holds what the effect `e` describes, after the calls `base` logged before it. */
    ghost predicate Mirrors(base: seq<Call>, e: Effect)
      reads this
    {
      table == e.table && constructed == e.constructed && log == base + e.calls
    }

    /** `instance.refresh()`: a no-op, recorded with the element being visited. */
    method Refresh(w: Instance, ghost visiting: ElementId)
      modifies this
      ensures table == old(table) && constructed == old(constructed)
      ensures log == old(log) + [Refreshed(visiting, w)]
    {
      log := log + [Refreshed(visiting, w)];
    }

    /** `instance.destroy()`: a no-op, recorded with the element being visited. */
    method Destroy(w: Instance, ghost visiting: ElementId)
      modifies this
      ensures table == old(table) && constructed == old(constructed)
      ensures log == old(log) + [Destroyed(visiting, w)]
    {
      log := log + [Destroyed(visiting, w)];
    }
  }

  /**
   * A widget class, that is, the constructor function whose static methods
   * widget.js defines: `reflectedName` is what reflection on its source
   * yields, `finder` its findAll, and `widgetName` and `keyTimestamp` the
   * static memo fields `_widgetName` and `_instanceKeyTimestamp` ("" while
   * unset, which JavaScript reads as false just as it reads undefined).
   */
  class WidgetClass {
    const reflectedName: string
    const finder: Finder
    var widgetName: string
    var keyTimestamp: string

    /** The name memo only ever holds the reflected name. */
    ghost predicate Valid()
      reads this
    {
      widgetName == "" || widgetName == reflectedName
    }

    /** A class as defined: nothing memoised yet. */
    constructor (reflectedName: string, finder: Finder)
      ensures Valid()
      ensures this.reflectedName == reflectedName && this.finder == finder
      ensures widgetName == "" && keyTimestamp == ""
    {
      this.reflectedName := reflectedName;
      this.finder := finder;
      widgetName := "";
      keyTimestamp := "";
    }

    /** The key every registry primitive uses from now on, given the clock reads `now` if it is read at all. */
    ghost function KeyAt(now: nat): string
      reads this
    {
      InstanceKey(reflectedName, Memo(keyTimestamp, DecimalString(now)))
    }

    /**
     * `_getWidgetName`: the memoised name, computed by reflection on first
     * use only.
     */
    method GetWidgetName() returns (name: string)
      requires Valid()
      modifies this`widgetName
      ensures Valid()
      ensures name == reflectedName && widgetName == reflectedName
    {
      if widgetName != "" {
        return widgetName;
      }
      name := reflectedName;
      widgetName := name;
    }

    /**
     * `getInstanceKeyTimestamp`: the decimal text of the clock reading `now`
     * on first use, the memoised text on every later use.
     */
    method GetInstanceKeyTimestamp(now: nat) returns (timestamp: string)
      modifies this`keyTimestamp
      ensures timestamp == keyTimestamp && timestamp != ""
      ensures keyTimestamp == Memo(old(keyTimestamp), DecimalString(now))
      ensures old(keyTimestamp) != "" ==> timestamp == old(keyTimestamp)
    {
      if keyTimestamp == "" {
        keyTimestamp := DecimalString(now);
      }
      timestamp := keyTimestamp;
    }

    /**
     * `getInstanceKey`: `"_" + name + timestamp`; once the timestamp is
     * memoised, every later call returns the same key whatever the clock says.
     */
    method GetInstanceKey(now: nat) returns (key: string)
      requires Valid()
      modifies this
      ensures Valid()
      ensures key == InstanceKey(reflectedName, keyTimestamp) && key == old(KeyAt(now))
      ensures widgetName == reflectedName && keyTimestamp == Memo(old(keyTimestamp), DecimalString(now))
      ensures old(keyTimestamp) != "" ==> key == InstanceKey(reflectedName, old(keyTimestamp))
    {
      var timestamp := GetInstanceKeyTimestamp(now);
      var name := GetWidgetName();
      key := InstanceKey(name, timestamp);
    }

    /** `getInstance`: the instance stored under this class's key on `element`, or none. */
    method GetInstance(page: Page, element: ElementId, now: nat) returns (instance: Option<Instance>)
      requires Valid()
      modifies this
      ensures Valid()
      ensures widgetName == reflectedName && keyTimestamp == Memo(old(keyTimestamp), DecimalString(now))
      ensures instance == Lookup(page.table, old(KeyAt(now)), element)
      ensures instance.Some? <==> Slot(old(KeyAt(now)), element) in page.table
    {
      var key := GetInstanceKey(now);
      instance := Lookup(page.table, key, element);
    }

    /** `setInstance`: overwrites the slot of `element`, whatever it held. */
    method SetInstance(page: Page, element: ElementId, instance: Instance, now: nat)
      requires Valid() && page.Valid()
      requires instance.serial < page.constructed
      modifies this, page
      ensures Valid() && page.Valid()
      ensures widgetName == reflectedName && keyTimestamp == Memo(old(keyTimestamp), DecimalString(now))
      ensures page.table == Store(old(page.table), old(KeyAt(now)), element, instance)
      ensures page.constructed == old(page.constructed)
      ensures page.log == old(page.log) + [Stored(Slot(old(KeyAt(now)), element), instance)]
    {
      var key := GetInstanceKey(now);
      page.table := Store(page.table, key, element, instance);
      page.log := page.log + [Stored(Slot(key, element), instance)];
    }

    /** `deleteInstance`: empties the slot of `element`; nothing changes if it already was empty. */
    method DeleteInstance(page: Page, element: ElementId, now: nat)
      requires Valid() && page.Valid()
      modifies this, page
      ensures Valid() && page.Valid()
      ensures widgetName == reflectedName && keyTimestamp == Memo(old(keyTimestamp), DecimalString(now))
      ensures page.table == Remove(old(page.table), old(KeyAt(now)), element)
      ensures page.constructed == old(page.constructed)
      ensures page.log == old(page.log) + [Deleted(Slot(old(KeyAt(now)), element))]
    {
      var key := GetInstanceKey(now);
      page.table := Remove(page.table, key, element);
      page.log := page.log + [Deleted(Slot(key, element))];
    }

    /** `createInstance`: `new this(element)`, a new object whose element is `element`. */
    method CreateInstance(page: Page, element: ElementId) returns (instance: Instance)
      requires page.Valid()
      modifies page
      ensures page.Valid()
      ensures instance == Instance(old(page.constructed), element)
      ensures page.constructed == old(page.constructed) + 1 && page.table == old(page.table)
      ensures page.log == old(page.log) + [Created(instance)]
    {
      instance := Instance(page.constructed, element);
      page.constructed := page.constructed + 1;
      page.log := page.log + [Created(instance)];
    }

    /** `findAll`: the base class throws; an override returns its query's elements. */
    function FindAll(root: ElementId): (r: Result<seq<ElementId>>)
      ensures r.Failure? <==> finder.Inherited?
      ensures r.Failure? ==> r.error == NotImplemented
    {
      match finder
      case Inherited => Failure(NotImplemented)
      case Overridden(query) => Success(query(root))
    }

    /**
     * initAll's visit of one element: refresh its instance, or construct and
     * register one; the page goes from mirroring `before` to mirroring one
     * more InitStep.
     */
    method InitOne(page: Page, element: ElementId, now: nat, ghost base: seq<Call>, ghost before: Effect)
      requires Valid() && page.Valid()
      requires page.Mirrors(base, before)
      modifies this, page
      ensures Valid() && page.Valid()
      ensures widgetName == reflectedName && keyTimestamp == Memo(old(keyTimestamp), DecimalString(now))
      ensures page.Mirrors(base, InitStep(before, old(KeyAt(now)), element))
    {
      var instance := GetInstance(page, element, now);
      if instance.Some? {
        page.Refresh(instance.value, element);
      } else {
        var created := CreateInstance(page, element);
        SetInstance(page, element, created, now);
      }
    }

    /**
     * deleteAll's visit of one element: destroy its instance and empty its
     * slot, if it has one; the page goes from mirroring `before` to
     * mirroring one more DeleteStep.
     */
    method DeleteOne(page: Page, element: ElementId, now: nat, ghost base: seq<Call>, ghost before: Effect)
      requires Valid() && page.Valid()
      requires page.Mirrors(base, before)
      modifies this, page
      ensures Valid() && page.Valid()
      ensures widgetName == reflectedName && keyTimestamp == Memo(old(keyTimestamp), DecimalString(now))
      ensures page.Mirrors(base, DeleteStep(before, old(KeyAt(now)), element))
    {
      var instance := GetInstance(page, element, now);
      if instance.Some? {
        page.Destroy(instance.value, element);
        DeleteInstance(page, element, now);
      }
    }

    /**
     * `initAll`: for each element findAll finds, in order, refresh the
     * registered instance or construct one and register it. A class without
     * its own findAll throws before anything changes.
     */
    method InitAll(page: Page, root: ElementId, now: nat) returns (outcome: Outcome)
      requires Valid() && page.Valid()
      modifies this, page
      ensures Valid() && page.Valid()
      ensures finder.Inherited? ==> outcome == Fail(NotImplemented) && unchanged(this) && unchanged(page)
      ensures finder.Overridden? ==>
        var found := finder.query(root);
        var effect := InitAllEffect(old(page.table), old(page.constructed), old(KeyAt(now)), found);
        && outcome == Pass
        && page.table == effect.table && page.constructed == effect.constructed
        && page.log == old(page.log) + effect.calls
        && (found != [] ==> widgetName == reflectedName && keyTimestamp == Memo(old(keyTimestamp), DecimalString(now)))
        && (found == [] ==> unchanged(this))
    {
      var found := FindAll(root);
      if found.Failure? {
        return Fail(found.error);
      }
      var elements := found.value;
      ghost var key := KeyAt(now);
      ghost var effect := InitAllEffect(page.table, page.constructed, key, []);
      var i := 0;
      while i < |elements|
        invariant 0 <= i <= |elements|
        invariant Valid() && page.Valid()
        invariant i == 0 ==> unchanged(this)
        invariant i > 0 ==> widgetName == reflectedName && keyTimestamp == Memo(old(keyTimestamp), DecimalString(now))
        invariant KeyAt(now) == key
        invariant effect == InitAllEffect(old(page.table), old(page.constructed), key, elements[..i])
        invariant page.Mirrors(old(page.log), effect)
      {
        InitAllSnoc(old(page.table), old(page.constructed), key, elements, i);
        InitOne(page, elements[i], now, old(page.log), effect);
        effect := InitStep(effect, key, elements[i]);
        i := i + 1;
      }
      assert elements[..i] == elements;
      outcome := Pass;
    }

    /**
     * `deleteAll`: for each element findAll finds, in order, destroy the
     * registered instance and then empty its slot; skip elements without one.
     * A class without its own findAll throws before anything changes.
     */
    method DeleteAll(page: Page, root: ElementId, now: nat) returns (outcome: Outcome)
      requires Valid() && page.Valid()
      modifies this, page
      ensures Valid() && page.Valid()
      ensures finder.Inherited? ==> outcome == Fail(NotImplemented) && unchanged(this) && unchanged(page)
      ensures finder.Overridden? ==>
        var found := finder.query(root);
        var effect := DeleteAllEffect(old(page.table), old(page.constructed), old(KeyAt(now)), found);
        && outcome == Pass
        && page.table == effect.table && page.constructed == effect.constructed
        && page.log == old(page.log) + effect.calls
        && (found != [] ==> widgetName == reflectedName && keyTimestamp == Memo(old(keyTimestamp), DecimalString(now)))
        && (found == [] ==> unchanged(this))
    {
      var found := FindAll(root);
      if found.Failure? {
        return Fail(found.error);
      }
      var elements := found.value;
      ghost var key := KeyAt(now);
      ghost var effect := DeleteAllEffect(page.table, page.constructed, key, []);
      var i := 0;
      while i < |elements|
        invariant 0 <= i <= |elements|
        invariant Valid() && page.Valid()
        invariant i == 0 ==> unchanged(this)
        invariant i > 0 ==> widgetName == reflectedName && keyTimestamp == Memo(old(keyTimestamp), DecimalString(now))
        invariant KeyAt(now) == key
        invariant effect == DeleteAllEffect(old(page.table), old(page.constructed), key, elements[..i])
        invariant page.Mirrors(old(page.log), effect)
      {
        DeleteAllSnoc(old(page.table), old(page.constructed), key, elements, i);
        DeleteOne(page, elements[i], now, old(page.log), effect);
        effect := DeleteStep(effect, key, elements[i]);
        i := i + 1;
      }
      assert elements[..i] == elements;
      outcome := Pass;
    }
  }

  /**
   * The key does not always single out a class: two classes with the same
   * name that first read the clock in the same millisecond build the same
   * key, so the second one's initAll finds and refreshes the instance the
   * first one constructed instead of constructing its own.
   */
  method SameMillisecondClassesShareInstances(page: Page, name: string, element: ElementId, now: nat)
    requires page.Valid() && page.table == map[]
    modifies page
    ensures page.constructed == old(page.constructed) + 1
    ensures var w := Instance(old(page.constructed), element);
      && page.table == map[Slot(InstanceKey(name, DecimalString(now)), element) := w]
      && page.log == old(page.log) + [Created(w), Stored(Slot(InstanceKey(name, DecimalString(now)), element), w), Refreshed(element, w)]
  {
    var finder := Overridden((root: ElementId) => [element]);
    var first := new WidgetClass(name, finder);
    var second := new WidgetClass(name, finder);
    var outcome := first.InitAll(page, 0, now);
    outcome := second.InitAll(page, 0, now);
  }
}
