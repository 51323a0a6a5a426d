/**
 * WidgetEvent of widget-event.js: an object that remembers an event type,
 * the options for the native event and the widget that raises it, and that
 * dispatches a native event carrying a copy of its public fields.
 */
module WidgetEvents {
  import opened Wrappers
  import opened Registry
  import opened InstanceKeys

  /** A JavaScript value as far as events carry them. */
  datatype Value =
    | Bool(b: bool)
    | Num(n: int)
    | Str(s: string)
    | WidgetRef(widget: Instance)
    | Object(fields: map<string, Value>)

  /** The field-name test of `_createEvent`: the first character is `_` ("" has none, so it is public). */
  predicate IsPrivate(name: string)
    ensures IsPrivate(name) <==> "_" <= name
  {
    |name| > 0 && name[0] == '_'
  }

  /**
   * An array index as ECMAScript orders property names: the canonical decimal
   * text (no leading zero) of an integer below 2^32 - 1.
   */
  predicate IsArrayIndex(name: string) {
    && name != [] && IsDigits(name) && (|name| > 1 ==> name[0] != '0')
    && DecimalValue(name) < 0xFFFF_FFFF
  }

  /** The number an array-index name stands for, and 0 for any other name. */
  function IndexValue(name: string): nat {
    if IsArrayIndex(name) then DecimalValue(name) else 0
  }

  /** `names` listed by ascending index value. */
  ghost predicate Ascending(names: seq<string>) {
    forall i, j :: 0 <= i < j < |names| ==> IndexValue(names[i]) <= IndexValue(names[j])
  }

  /** `x` inserted into `names` before the first name of larger index value. */
  function InsertIndex(names: seq<string>, x: string): (r: seq<string>)
    ensures multiset(r) == multiset(names) + multiset{x}
    ensures Ascending(names) ==> Ascending(r)
    decreases |names|
  {
    if names == [] || IndexValue(x) <= IndexValue(names[0]) then [x] + names
    else
      var rest := InsertIndex(names[1..], x);
      assert names == [names[0]] + names[1..];
      InsertIndexAscending(names, x, rest);
      [names[0]] + rest
  }

  /** Putting the first name back before the insertion into the rest keeps the list ascending. */
  lemma InsertIndexAscending(names: seq<string>, x: string, rest: seq<string>)
    requires names != [] && IndexValue(names[0]) < IndexValue(x)
    requires multiset(rest) == multiset(names[1..]) + multiset{x}
    requires Ascending(names) ==> Ascending(rest)
    ensures Ascending(names) ==> Ascending([names[0]] + rest)
  {
    if Ascending(names) {
      var r := [names[0]] + rest;
      forall j | 0 < j < |r| ensures IndexValue(names[0]) <= IndexValue(r[j]) {
        assert r[j] == rest[j - 1] && r[j] in multiset(rest);
        if r[j] != x {
          assert r[j] in multiset(names[1..]);
          var m :| 0 <= m < |names[1..]| && names[1..][m] == r[j];
          assert names[m + 1] == r[j];
        }
      }
      forall i, j | 0 <= i < j < |r| ensures IndexValue(r[i]) <= IndexValue(r[j]) {
        if 0 < i {
          assert r[i] == rest[i - 1] && r[j] == rest[j - 1];
        }
      }
    }
  }

  /** The array-index names among `order`, by ascending value. */
  function IndexNames(order: seq<string>): seq<string>
    decreases |order|
  {
    if order == [] then []
    else if IsArrayIndex(order[|order| - 1]) then InsertIndex(IndexNames(order[..|order| - 1]), order[|order| - 1])
    else IndexNames(order[..|order| - 1])
  }

  /** The other names among `order`, in the order they are listed there. */
  function OtherNames(order: seq<string>): seq<string>
    decreases |order|
  {
    if order == [] then []
    else if IsArrayIndex(order[|order| - 1]) then OtherNames(order[..|order| - 1])
    else OtherNames(order[..|order| - 1]) + [order[|order| - 1]]
  }

  /** IndexNames keeps each array-index name as often as `order` lists it, drops the others, and sorts. */
  lemma {:induction false} IndexNamesSorted(order: seq<string>)
    ensures forall k :: multiset(IndexNames(order))[k] == if IsArrayIndex(k) then multiset(order)[k] else 0
    ensures Ascending(IndexNames(order))
    decreases |order|
  {
    if order != [] {
      var prefix, x := order[..|order| - 1], order[|order| - 1];
      assert order == prefix + [x];
      IndexNamesSorted(prefix);
    }
  }

  /** OtherNames keeps each other name as often as `order` lists it and drops the array indices. */
  lemma {:induction false} OtherNamesKept(order: seq<string>)
    ensures forall k :: multiset(OtherNames(order))[k] == if IsArrayIndex(k) then 0 else multiset(order)[k]
    decreases |order|
  {
    if order != [] {
      var prefix, x := order[..|order| - 1], order[|order| - 1];
      assert order == prefix + [x];
      OtherNamesKept(prefix);
    }
  }

  /** OtherNames keeps two other names in the order `order` lists them. */
  lemma {:induction false} OtherNamesKeepOrder(order: seq<string>, i: int, j: int)
    requires 0 <= i < j < |order| && !IsArrayIndex(order[i]) && !IsArrayIndex(order[j])
    ensures exists p, q :: 0 <= p < q < |OtherNames(order)| && OtherNames(order)[p] == order[i] && OtherNames(order)[q] == order[j]
    decreases |order|
  {
    var prefix, x := order[..|order| - 1], order[|order| - 1];
    var ot := OtherNames(prefix);
    if j < |order| - 1 {
      OtherNamesKeepOrder(prefix, i, j);
      var p, q :| 0 <= p < q < |ot| && ot[p] == prefix[i] && ot[q] == prefix[j];
      assert OtherNames(order)[p] == order[i] && OtherNames(order)[q] == order[j];
    } else {
      assert order[i] in ot by {
        OtherNamesKept(prefix);
        assert prefix[i] in multiset(prefix);
      }
      var p :| 0 <= p < |ot| && ot[p] == order[i];
      assert OtherNames(order) == ot + [x];
      assert OtherNames(order)[p] == order[i] && OtherNames(order)[|ot|] == order[j];
    }
  }

  /**
   * The order in which `for...in` visits own properties created in the order
   * `order`: array-index names first, ascending, then the others in creation
   * order.
   */
  function Enumeration(order: seq<string>): seq<string> {
    IndexNames(order) + OtherNames(order)
  }

  /** `for...in` visits every property exactly as often as it was created. */
  lemma EnumerationPermutes(order: seq<string>)
    ensures multiset(Enumeration(order)) == multiset(order)
  {
    var ix, ot := IndexNames(order), OtherNames(order);
    IndexNamesSorted(order);
    OtherNamesKept(order);
    assert multiset(ix + ot) == multiset(ix) + multiset(ot);
    forall k ensures multiset(ix + ot)[k] == multiset(order)[k] {}
  }

  /** `for...in` visits the array-index names before all others, in ascending order. */
  lemma EnumerationIndicesFirst(order: seq<string>)
    ensures var e := Enumeration(order);
      forall i, j :: 0 <= i < j < |e| && IsArrayIndex(e[j]) ==> IsArrayIndex(e[i]) && IndexValue(e[i]) <= IndexValue(e[j])
  {
    var ix, ot := IndexNames(order), OtherNames(order);
    var e := ix + ot;
    assert Ascending(ix) && forall k :: k in ix ==> IsArrayIndex(k) by {
      IndexNamesSorted(order);
      forall k | k in ix ensures IsArrayIndex(k) {
        assert k in multiset(ix);
      }
    }
    assert forall k :: k in ot ==> !IsArrayIndex(k) by {
      OtherNamesKept(order);
      forall k | k in ot ensures !IsArrayIndex(k) {
        assert k in multiset(ot);
      }
    }
    forall j | |ix| <= j < |e| ensures !IsArrayIndex(e[j]) {
      assert e[j] == ot[j - |ix|];
    }
    forall i, j | 0 <= i < j < |ix|
      ensures IsArrayIndex(e[i]) && IndexValue(e[i]) <= IndexValue(e[j])
    {
      assert e[i] == ix[i] && e[j] == ix[j];
    }
  }

  /** `for...in` visits two names that are not array indices in the order they were created. */
  lemma EnumerationKeepsCreationOrder(order: seq<string>, i: int, j: int)
    requires 0 <= i < j < |order| && !IsArrayIndex(order[i]) && !IsArrayIndex(order[j])
    ensures var e := Enumeration(order);
      exists p, q :: 0 <= p < q < |e| && e[p] == order[i] && e[q] == order[j]
  {
    var ix, ot := IndexNames(order), OtherNames(order);
    OtherNamesKeepOrder(order, i, j);
    var p, q :| 0 <= p < q < |ot| && ot[p] == order[i] && ot[q] == order[j];
    var e := Enumeration(order);
    assert e == ix + ot;
    assert e[|ix| + p] == order[i] && e[|ix| + q] == order[j];
  }

  /** `for...in` visits exactly the created properties. */
  lemma EnumerationVisitsAll(order: seq<string>)
    ensures forall k :: k in Enumeration(order) <==> k in order
  {
    EnumerationPermutes(order);
    forall k ensures k in Enumeration(order) <==> k in order {
      assert k in Enumeration(order) <==> k in multiset(Enumeration(order));
    }
  }

  /** None of the constructor's field names is an array index. */
  lemma ConstructorFieldsNotIndices()
    ensures IndexNames(["_type", "_params", "widget"]) == []
    ensures OtherNames(["_type", "_params", "widget"]) == ["_type", "_params", "widget"]
  {
    var o1, o2, o3 := ["_type"], ["_type", "_params"], ["_type", "_params", "widget"];
    assert !IsArrayIndex("_type") && !IsArrayIndex("_params") && !IsArrayIndex("widget");
    assert o1[..0] == [] && o2[..1] == o1 && o3[..2] == o2;
    assert IndexNames(o1) == [] && OtherNames(o1) == o1;
    assert IndexNames(o2) == [] && OtherNames(o2) == o2;
  }

  /**
   * A payload stored under the name "0" after the constructor's fields is
   * still visited first, because it is an array index.
   */
  lemma IndexPayloadVisitedFirst()
    ensures Enumeration(["_type", "_params", "widget", "0"]) == ["0", "_type", "_params", "widget"]
  {
    var o3 := ["_type", "_params", "widget"];
    var o4 := o3 + ["0"];
    assert o4 == ["_type", "_params", "widget", "0"];
    assert IndexNames(o4) == ["0"] && OtherNames(o4) == o3 by {
      ConstructorFieldsNotIndices();
      assert IsArrayIndex("0") by {
        assert DecimalValue("0") == DecimalValue("") * 10 + DigitValue('0');
      }
      assert o4[..3] == o3;
    }
  }

  /**
   * A native event: the type and options given to `new Event(...)`, and the
   * properties assigned onto it afterwards.
   */
  datatype NativeEvent = NativeEvent(typeArg: Value, initArg: Value, props: map<string, Value>)

  /** The event `_createEvent` builds from an object with properties `props`. */
  function EventFor(props: map<string, Value>): (e: NativeEvent)
    requires "_type" in props && "_params" in props
    ensures e.typeArg == props["_type"] && e.initArg == props["_params"]
    ensures forall k :: k in e.props <==> k in props && !IsPrivate(k)
    ensures forall k :: k in e.props ==> e.props[k] == props[k]
  {
    NativeEvent(props["_type"], props["_params"], map k | k in props && !IsPrivate(k) :: props[k])
  }

  class WidgetEvent {
    /** The object's own enumerable properties. */
    var props: map<string, Value>
    /** The order in which they were created; `for...in` visits them in `Enumeration(order)`. */
    var order: seq<string>

    /** The constructor's fields exist, and `order` lists each property once. */
    ghost predicate Valid()
      reads this
    {
      && "_type" in props && "_params" in props && "widget" in props
      && (forall i, j :: 0 <= i < j < |order| ==> order[i] != order[j])
      && (forall k :: k in props <==> k in order)
    }

    /**
     * `new WidgetEvent(widget, type, params)`: stores the type, the options
     * (an empty object when omitted) and the widget raising the event.
     */
    constructor (widget: Instance, eventType: string, params: Option<map<string, Value>>)
      ensures Valid()
      ensures props == map["_type" := Str(eventType),
                           "_params" := Object(if params.Some? then params.value else map[]),
                           "widget" := WidgetRef(widget)]
      ensures order == ["_type", "_params", "widget"]
    {
      props := map["_type" := Str(eventType),
                   "_params" := Object(if params.Some? then params.value else map[]),
                   "widget" := WidgetRef(widget)];
      order := ["_type", "_params", "widget"];
    }

    /**
     * `this[name] = v`, as a subclass does to attach a payload: a new
     * property is created last, an existing one keeps its place.
     */
    method SetField(name: string, v: Value)
      requires Valid()
      modifies this
      ensures Valid()
      ensures props == old(props)[name := v]
      ensures order == if name in old(props) then old(order) else old(order) + [name]
    {
      if name !in props {
        order := order + [name];
      }
      props := props[name := v];
    }

    /**
     * `_createEvent`: a native event of the stored type and options onto
     * which every public property is copied with its value and no private one
     * is; so `_type` and `_params` stay behind and `widget` always travels.
     */
    method CreateEvent() returns (e: NativeEvent)
      requires Valid()
      ensures e == EventFor(props)
      ensures e.typeArg == props["_type"] && e.initArg == props["_params"]
      ensures forall k :: k in e.props <==> k in props && !IsPrivate(k)
      ensures forall k :: k in e.props ==> e.props[k] == props[k]
      ensures "widget" in e.props && e.props["widget"] == props["widget"]
      ensures "_type" !in e.props && "_params" !in e.props
    {
      var keys := Enumeration(order);
      EnumerationVisitsAll(order);
      var copied: map<string, Value> := map[];
      var i := 0;
      while i < |keys|
        invariant 0 <= i <= |keys|
        invariant forall k :: k in copied <==> k in keys[..i] && !IsPrivate(k)
        invariant forall k :: k in copied ==> k in props && copied[k] == props[k]
      {
        var key := keys[i];
        if !IsPrivate(key) {
          copied := copied[key := props[key]];
        }
        assert keys[..i + 1] == keys[..i] + [key];
        i := i + 1;
      }
      assert keys[..i] == keys;
      e := NativeEvent(props["_type"], props["_params"], copied);
    }

    /**
     * `dispatch`: builds the event and returns exactly what dispatching it
     * on the widget's element returns, true when no handler called
     * preventDefault. `dispatchEvent` stands for the browser's dispatch.
     */
    method Dispatch(dispatchEvent: (ElementId, NativeEvent) -> bool) returns (notCanceled: bool)
      requires Valid()
      requires props["widget"].WidgetRef?
      ensures notCanceled == dispatchEvent(props["widget"].widget.element, EventFor(props))
    {
      var e := CreateEvent();
      notCanceled := dispatchEvent(props["widget"].widget.element, e);
    }
  }

  /**
   * An event subclass that adds the payload field `value = 42`: the
   * dispatched event carries the payload and the widget, and not the private
   * type and options.
   */
  method PayloadTravels(widget: Instance, eventType: string) returns (e: NativeEvent)
    ensures "value" in e.props && e.props["value"] == Num(42)
    ensures "widget" in e.props && e.props["widget"] == WidgetRef(widget)
    ensures "_type" !in e.props && "_params" !in e.props
    ensures e.typeArg == Str(eventType) && e.initArg == Object(map["bubbles" := Bool(true)])
  {
    var event := new WidgetEvent(widget, eventType, Some(map["bubbles" := Bool(true)]));
    event.SetField("value", Num(42));
    e := event.CreateEvent();
  }
}
