/**
 * The JavaScript values that flow through the model (request parameters,
 * cached response bodies, form fields), with the three coercions the
 * source relies on: truthiness, `typeof`, and `String(v)`.
 * Numbers are integers here; see README for what that leaves out.
 */
module JsValues {
  import opened JsStrings

  datatype JsValue =
    | Undefined
    | Null
    | Bool(b: bool)
    | Num(n: int)
    | Str(s: string)
    | Arr(items: seq<JsValue>)
    | Obj(fields: seq<(string, JsValue)>)

  /** ToBoolean: `undefined`, `null`, `false`, `0` and `""` are falsy; arrays and objects are always truthy. */
  function Truthy(v: JsValue): (t: bool)
    // The falsy values, listed; every other value is truthy.
    ensures !t <==> v in {Undefined, Null, Bool(false), Num(0), Str("")}
  {
    match v
    case Undefined => false
    case Null => false
    case Bool(b) => b
    case Num(n) => n != 0
    case Str(s) => s != ""
    case Arr(_) => true
    case Obj(_) => true
  }

  /** The `typeof` operator (`null` and arrays report "object"). */
  function TypeOf(v: JsValue): (t: string)
    ensures t == "undefined" <==> v.Undefined?
    ensures t == "boolean" <==> v.Bool?
    ensures t == "number" <==> v.Num?
    ensures t == "string" <==> v.Str?
    ensures t == "object" <==> v.Null? || v.Arr? || v.Obj?
  {
    match v
    case Undefined => "undefined"
    case Null => "object"
    case Bool(_) => "boolean"
    case Num(_) => "number"
    case Str(_) => "string"
    case Arr(_) => "object"
    case Obj(_) => "object"
  }

  /** `Array.prototype.join(",")`: `undefined` and `null` elements render as empty. */
  function JoinElements(items: seq<JsValue>, whole: JsValue): (r: string)
    requires forall i :: 0 <= i < |items| ==> items[i] < whole
    ensures |items| == 0 ==> r == ""
    ensures |items| == 1 && (items[0].Undefined? || items[0].Null?) ==> r == ""
    ensures |items| == 1 && items[0].Str? ==> r == items[0].s
    ensures |items| == 1 && !items[0].Undefined? && !items[0].Null? ==> r == ToString(items[0])
    // One comma between neighbours: a list of comma-free texts has |items| - 1 commas.
    ensures (forall i :: 0 <= i < |items| ==> items[i].Str? && ',' !in items[i].s) ==>
              multiset(r)[','] == if |items| == 0 then 0 else |items| - 1
    decreases whole, 0, |items|
  {
    if |items| == 0 then ""
    else
      var head := if items[0].Undefined? || items[0].Null? then "" else ToString(items[0]);
      if |items| == 1 then head else head + "," + JoinElements(items[1..], whole)
  }

  /** Regrouping a three-part comma join. */
  lemma JoinAssoc(x: string, y: string, z: string)
    ensures x + "," + (y + "," + z) == (x + "," + y) + "," + z
  {
  }

  /** Joining two non-empty runs puts one comma between their texts, in order. */
  lemma {:induction false} JoinElementsAppend(a: seq<JsValue>, b: seq<JsValue>, whole: JsValue)
    requires |a| > 0 && |b| > 0
    requires forall i :: 0 <= i < |a| ==> a[i] < whole
    requires forall i :: 0 <= i < |b| ==> b[i] < whole
    ensures JoinElements(a + b, whole) == JoinElements(a, whole) + "," + JoinElements(b, whole)
    decreases |a|
  {
    var ab := a + b;
    assert ab[0] == a[0] && ab[1..] == a[1..] + b;
    var head := if a[0].Undefined? || a[0].Null? then "" else ToString(a[0]);
    assert JoinElements(ab, whole) == head + "," + JoinElements(a[1..] + b, whole);
    if |a| == 1 {
      assert a[1..] + b == b;
      assert JoinElements(a, whole) == head;
    } else {
      var rest := JoinElements(a[1..], whole);
      JoinElementsAppend(a[1..], b, whole);
      assert JoinElements(a, whole) == head + "," + rest;
      JoinAssoc(head, rest, JoinElements(b, whole));
    }
  }

  /** `String(v)`, the conversion `URLSearchParams` applies to record values. */
  function ToString(v: JsValue): (r: string)
    ensures v.Str? ==> r == v.s
    ensures v.Num? ==> r == IntToString(v.n)
    ensures v.Undefined? ==> r == "undefined"
    ensures v.Null? ==> r == "null"
    ensures v.Bool? ==> r == (if v.b then "true" else "false")
    ensures v.Obj? ==> r == "[object Object]"
    ensures v.Arr? ==> r == JoinElements(v.items, v)
    decreases v, 1
  {
    match v
    case Undefined => "undefined"
    case Null => "null"
    case Bool(b) => if b then "true" else "false"
    case Num(n) => IntToString(n)
    case Str(s) => s
    case Arr(items) => JoinElements(items, v)
    case Obj(_) => "[object Object]"
  }
}
