# ooui-widget: the widget registry and widget events, in Dafny

This project models the core of ooui-widget. That is a small JavaScript base-class library that binds stateful
"widget" objects to DOM elements. It covers two files:

- `src/widget.js`. Every widget class stores its instances directly on elements, under a property named
  `"_" + widgetName + timestamp`. Both parts of the name are memoised on the class. On top of the
  lookup, overwrite and remove primitives sit two bulk operations over the elements the class's `findAll`
  finds under a root. `initAll` refreshes the instance already registered on an element, or constructs
  and registers a new one. `deleteAll` destroys and unregisters the registered instances and skips the rest.
  The base `findAll` throws "not implemented".
- `src/widget-event.js`. A `WidgetEvent` remembers an event type, the options for the native event and the
  widget raising it. `dispatch` builds a native event, copies every field of the object whose name does not
  start with `_` onto it, and dispatches it on the widget's element.

Layout:

- `wrappers.dfy` (module `Wrappers`): `Option`, `Result` and `Outcome`. A thrown error is a `Failure`/`Fail`
  carrying the error's message.
- `instance_keys.dfy` (module `InstanceKeys`): the key template, the decimal text of a clock reading and the
  memo read with JavaScript truthiness.
- `registry.dfy` (module `Registry`): the registry as a value.
  - The table maps `Slot(key, element)` to `Instance`.
  - `InitAllEffect` and `DeleteAllEffect` are what the two loops do to the table, to the count of constructed
    objects and to the log of calls.
  - The lemmas state what the source promises about these effects.
- `widget.dfy` (module `Widgets`): the imperative side.
  - `Page` holds every element's registry properties, the number of widget objects constructed so far and a
    ghost log of lifecycle calls and registry writes.
  - `WidgetClass` is one widget class: its memo fields `_widgetName` and `_instanceKeyTimestamp`, and its static
    methods. `InitAll` and `DeleteAll` are `while` loops. Each is proved to leave the page exactly as the
    corresponding `Registry` effect says.
- `widget_event.dfy` (module `WidgetEvents`): `WidgetEvent` as a class whose properties are a map plus their
  creation order. `Enumeration` is the order `for...in` visits them in: array-index names first, ascending,
  then the others in creation order. `CreateEvent` is the copy loop over that order.

Modelling choices:

- Elements are ids. A widget object is `Instance(serial, element)`:
  - `serial` is its allocation number, which stands for object identity.
  - `element` is the element the object was constructed for, which the base constructor stores.
- `createInstance` takes the next serial. Because a registered instance always has a serial below
  `Page.constructed`, a new instance differs from every existing one.
- The clock is the parameter `now` of every class-level operation. The class reads it at most once, on first
  use, so one value per call is exact.
- A class's `findAll` is `Finder`. `Inherited` is the base method. `Overridden(query)` gives the elements the
  override finds under each root.
- The browser's `dispatchEvent` is the parameter `dispatchEvent` of `Dispatch`.

## Model

| member | source | states |
|---|---|---|
| `InstanceKeys.DecimalString` | src/widget.js:81 | `Date.now() + ''` is a non-empty string of decimal digits with no leading zero |
| `InstanceKeys.DecimalRoundTrip` | src/widget.js:81 | reading the timestamp text back as a number gives the clock reading it came from |
| `InstanceKeys.DecimalInjective` | src/widget.js:81 | different clock readings give different timestamp texts |
| `InstanceKeys.Memo` | src/widget.js:80-81 | the `or` memo over strings: a set memo is returned as is, otherwise the computed value; the result is empty only when both are |
| `InstanceKeys.TimestampFixedOnFirstUse` | src/widget.js:79-82 | once the timestamp memo is set it is non-empty, so a later clock reading no longer changes it |
| `InstanceKeys.InstanceKey` | src/widget.js:92 | the key is `_` followed by the name and then the timestamp, each recoverable by position |
| `InstanceKeys.InstanceKeyInjective` | src/widget.js:92 | a key `_${name}${timestamp}` with a timestamp of known width determines the name and the timestamp |
| `InstanceKeys.DistinctTimestampsDistinctKeys` | src/widget.js:79-95 | two classes of the same name whose timestamps come from different clock readings get different keys (equal readings collide, see `Widgets.SameMillisecondClassesShareInstances`) |
| `Registry.Lookup` | src/widget.js:104 | reading `element[key]`, null when absent: some instance exactly when the slot is filled, and then the one it holds |
| `Registry.Store` | src/widget.js:114 | after the write the slot holds exactly the new instance, whatever it held; every other (key, element) lookup is unchanged |
| `Registry.Remove` | src/widget.js:124 | after the delete the slot is empty; every other lookup is unchanged; deleting an empty slot changes nothing |
| `Registry.InitStep` | src/widget.js:140-148 | one visit of initAll: afterwards the element has an instance, no registered instance is replaced, at most one object is constructed and the log only grows |
| `Registry.InitAllEffect` | src/widget.js:139-149 | after initAll every found element has an instance and no registered instance is replaced |
| `Registry.DeleteStep` | src/widget.js:163-170 | one visit of deleteAll: exactly the element's slot is emptied, every other slot keeps its instance, nothing is constructed and the log only grows |
| `Registry.DeleteAllEffect` | src/widget.js:162-171 | after deleteAll no found element has an instance, no slot is added or changed, and nothing is constructed |
| `Registry.InitAllTable` | src/widget.js:139-149 | beyond `InitAllEffect`: only found elements gain slots, each holding a new object bound to that element; nothing is constructed iff every found element was registered |
| `Registry.InitAllOrder` | src/widget.js:139-149 | initAll only constructs, refreshes and registers; each construction is for a found element without an instance and is registered on it at once; nothing is registered that was not just constructed; each refresh goes to the instance registered on the visited element |
| `Registry.InitAllRefreshesRegistered` | src/widget.js:140-145 | an element registered before the scan has its registered instance refreshed once per occurrence in the scan (that nothing is constructed for it follows from `InitAllOrder`) |
| `Registry.InitAllCreatesOnce` | src/widget.js:140-148 | an unregistered found element gets exactly one instance, constructed once and refreshed once per later occurrence; every object constructed during the scan is still the instance registered on its element at the end, so no element is constructed for twice; every refresh of an instance registered during the scan comes after that instance's construction |
| `Registry.InitAllCountsCreations` | src/widget.js:140-148 | the instance left registered on an unregistered found element has exactly one `Created` entry in the log and one `Refreshed` entry per occurrence after the first; that no other object is constructed for the element and that the refreshes come after the construction are stated by `InitAllCreatesOnce` |
| `Registry.DeleteAllTable` | src/widget.js:162-171 | after deleteAll no found element has an instance under the key; every other slot, under this key or another, keeps its instance; nothing is constructed |
| `Registry.DeleteAllOrder` | src/widget.js:163-170 | deleteAll only destroys and unregisters; each destroy is of the instance registered before the scan on a found element and is followed at once by emptying that slot; no slot is emptied without that destroy just before |
| `Registry.DeleteAllDestroysOnce` | src/widget.js:162-171 | the instance of each registered found element is destroyed exactly once, however often the element is found |
| `Registry.DeleteAllSkipsUnregistered` | src/widget.js:163-167 | deleteAll over elements without instances makes no call and changes nothing |
| `Registry.OtherClassesUnaffected` | src/widget.js:136-172 | initAll and deleteAll of one class leave every lookup under another class's key as it was |
| `Registry.InitAllOverRegistered` | src/widget.js:139-149 | initAll over elements that all have an instance changes no slot, constructs nothing and only refreshes |
| `Registry.InitAllIdempotent` | src/widget.js:139-149 | a second initAll over the same scan constructs nothing, changes no slot and only refreshes |
| `Registry.DeleteAllIdempotent` | src/widget.js:162-171 | a second deleteAll over the same scan makes no call and changes nothing |
| `Registry.DeleteAllUndoesInitAll` | src/widget.js:136-172 | deleteAll after initAll over the same scan leaves the registry exactly as deleteAll alone would |
| `Widgets.Page.Refresh` | src/widget.js:24 | `refresh()` changes no registry slot; it is recorded in the log with the element being visited |
| `Widgets.Page.Destroy` | src/widget.js:31 | `destroy()` changes no registry slot; it is recorded in the log with the element being visited |
| `Widgets.WidgetClass.GetWidgetName` | src/widget.js:39-50 | returns the reflected name and memoises it; a memoised name is returned without reflecting again |
| `Widgets.WidgetClass.GetInstanceKeyTimestamp` | src/widget.js:79-82 | returns the memoised timestamp, or on first use the decimal text of the clock and memoises it; once set, it is returned unchanged |
| `Widgets.WidgetClass.GetInstanceKey` | src/widget.js:89-95 | returns `"_" + name + timestamp` with both parts memoised; once the timestamp is set, every later call returns the same key |
| `Widgets.WidgetClass.GetInstance` | src/widget.js:102-105 | returns the instance in this class's slot on the element, or none exactly when the slot is empty |
| `Widgets.WidgetClass.SetInstance` | src/widget.js:112-115 | the slot afterwards holds exactly the given instance, with no check of what it held; no other slot changes |
| `Widgets.WidgetClass.DeleteInstance` | src/widget.js:122-125 | the slot afterwards is empty, a no-op when it already was; no other slot changes |
| `Widgets.WidgetClass.CreateInstance` | src/widget.js:57-59 | constructs one new object whose element is the given one, and registers nothing |
| `Widgets.WidgetClass.FindAll` | src/widget.js:68-70 | fails with "Method 'findAll' is not implemented" exactly when the class does not override it |
| `Widgets.WidgetClass.InitOne` | src/widget.js:140-148 | one pass of initAll's loop: a page that held the effect `before` holds `InitStep(before)` under the memoised key |
| `Widgets.WidgetClass.DeleteOne` | src/widget.js:163-170 | one pass of deleteAll's loop: a page that held the effect `before` holds `DeleteStep(before)` under the memoised key |
| `Widgets.WidgetClass.InitAll` | src/widget.js:136-150 | without an own findAll, throws before anything changes; otherwise leaves the registry, the constructed count and the log as `InitAllEffect` of the found elements says, under the memoised key |
| `Widgets.WidgetClass.DeleteAll` | src/widget.js:159-172 | without an own findAll, throws before anything changes; otherwise leaves the registry and the log as `DeleteAllEffect` of the found elements says, under the memoised key |
| `Widgets.SameMillisecondClassesShareInstances` | src/widget.js:79-95 | two classes with the same name whose timestamps are first taken at the same clock reading share one key, so the second one's initAll refreshes the instance the first one constructed and constructs none of its own |
| `WidgetEvents.IsPrivate` | src/widget-event.js:41 | a name is private exactly when `_` is a prefix of it; the empty name is public |
| `WidgetEvents.EventFor` | src/widget-event.js:37-47 | the event carries the stored type and options, and exactly the public properties with their values |
| `WidgetEvents.InsertIndex` | src/widget-event.js:40 | inserting a name keeps every name and adds it once, and keeps a list ascending by index value |
| `WidgetEvents.IndexNamesSorted` | src/widget-event.js:40 | the array-index names, each as often as created and ascending by value |
| `WidgetEvents.OtherNamesKept` | src/widget-event.js:40 | the other names, each as often as created |
| `WidgetEvents.EnumerationPermutes` | src/widget-event.js:40 | `for...in` visits every property as often as it was created |
| `WidgetEvents.EnumerationIndicesFirst` | src/widget-event.js:40 | `for...in` visits array-index names before all others, in ascending numeric order |
| `WidgetEvents.EnumerationVisitsAll` | src/widget-event.js:40 | `for...in` visits exactly the created properties |
| `WidgetEvents.OtherNamesKeepOrder` | src/widget-event.js:40 | two names that are not array indices keep their creation order among the other names |
| `WidgetEvents.EnumerationKeepsCreationOrder` | src/widget-event.js:40 | `for...in` visits two names that are not array indices in the order they were created |
| `WidgetEvents.IndexPayloadVisitedFirst` | src/widget-event.js:40 | a payload named "0" set after the constructor's fields is still visited first |
| `WidgetEvents.WidgetEvent.constructor` | src/widget-event.js:12-31 | stores the type, the options (an empty object when omitted) and the widget, created in that order |
| `WidgetEvents.WidgetEvent.SetField` | src/widget-event.js:40-44 | a field a subclass sets becomes a property of the object; a new property is created last and an existing one keeps its place in the creation order (`for...in` then visits in `Enumeration` order) |
| `WidgetEvents.WidgetEvent.CreateEvent` | src/widget-event.js:37-47 | the loop visits the properties in `for...in` order; the event is built from the stored type and options; every property not starting with `_` is copied with an identical value and no other is, so `_type` and `_params` stay behind and `widget` always travels |
| `WidgetEvents.WidgetEvent.Dispatch` | src/widget-event.js:49-57 | returns exactly what dispatching the built event on the widget's element returns |
| `WidgetEvents.PayloadTravels` | src/widget-event.js:38-44 | a payload field `value = 42` added by a subclass arrives on the event with that value, and so does the widget; the private type and options do not |

## Left out

- `src/widget-control.js` is not part of this model. It only stores the controlled widget and passes the element
  (default null) to the base constructor.
- The reflection in `_getWidgetName` (src/widget.js:44-46) is a regular expression over the constructor's
  source. The model replaces it with the constant `reflectedName`. So the `TypeError` that class-syntax source
  (which does not match `^function`) would raise is not modelled.
- Static fields are inherited through the constructor chain in JavaScript. So a subclass of a class that has
  already memoised its name would read the parent's `_widgetName` and share its key. The model keeps one
  memo per class and does not capture this sharing.
- `Date.now()` is the parameter `now`, a non-negative integer.
- Subclass `findAll` overrides query the DOM. The model takes their result as a function of the root and
  does not model the DOM changing between queries.
- `createInstance` is `new this(element)` (src/widget.js:58), so `initAll` runs the subclass's own
  constructor. The model assumes that constructor passes its element argument on to the base constructor,
  has no other effect and does not throw. `WidgetControl`'s constructor does not do this: it stores its
  argument as `widget` and passes the default `null` on (src/widget-control.js:15-22). So for a subclass of it
  that keeps the inherited `createInstance`, the stored `element` is not the found element the model records.
- Subclass overrides of `createInstance`, `refresh` and `destroy` are not modelled. The base `refresh` and
  `destroy` are no-ops, and only their calls are recorded, in the ghost log.
- JavaScript truthiness on stored values (`|| null`, `if (instance)`, `== null`) is not modelled. Instances are
  always objects, so presence is an `Option`. An explicitly passed `null` or other falsy value in a slot is
  not modelled either.
- Object identity is a serial number handed out by `Page.constructed`. Heap references, garbage collection and
  aliasing between an instance and its element are not modelled.
- The native `Event` constructor, the browser's `dispatchEvent`, handler execution and exceptions thrown by
  handlers are not modelled. `Dispatch` returns the result of a `dispatchEvent` function given as a parameter.
- Copying a public field whose name is a read-only `Event` property (such as `type`) throws in module code.
  The model treats every copy as a plain property write.
- `for...in` also visits inherited enumerable properties. The model has only the object's own properties; the
  class's methods live on its prototype and are not enumerable, but an enumerable property a subclass adds to
  a prototype would be copied by the source and is not modelled.
- `IsArrayIndex` follows the ordering of ordinary objects: array indices first in ascending order, then other
  string names in creation order. Symbol-named properties, which `for...in` skips, are not modelled. The copied
  map does not depend on this order.
- The instance key singles out a class only while keys differ. Two classes with the same name whose
  timestamps are first taken in the same millisecond get the same key and share their instances
  (`Widgets.SameMillisecondClassesShareInstances`). `DistinctTimestampsDistinctKeys` and
  `OtherClassesUnaffected` are stated for distinct readings and distinct keys only.
- `WidgetEvent.constructor` covers an omitted or `undefined` `params` argument. An explicit `null` is not
  modelled. Values are booleans, integers, strings, widgets and objects; floating-point numbers are not
  modelled.
- Object-valued fields are copied as values. The source stores the caller's `params` object itself
  (src/widget-event.js:24) and `_createEvent` copies references to payload objects (src/widget-event.js:42),
  so a later change through one reference shows through the others. The model's `Object` values share nothing
  and this aliasing is not modelled.
- `WidgetEvent.Dispatch` requires that the `widget` field still holds a widget, which is what the source
  needs to reach `widget.element`.
