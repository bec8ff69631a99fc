/**
 * The JavaScript values that the server-side JavaScript modules of this
 * model inspect and rewrite, and with which JSON query results are built.
 * Numbers are modelled as integers; floating point, functions and
 * prototype-inherited properties are not modelled.
 */
module JsValues {

  /**
   * An array carries its elements and, like every JavaScript object, may
   * also carry named own properties.
   */
  datatype JsValue =
    | Undefined
    | Null
    | Bool(b: bool)
    | Num(n: int)
    | Str(s: string)
    | Arr(elems: seq<JsValue>, aprops: map<string, JsValue>)
    | Obj(props: map<string, JsValue>)
  {
    /** Objects and arrays; the only values whose properties can be written. */
    predicate IsObject() { Arr? || Obj? }

    function OwnProperties(): map<string, JsValue>
      requires IsObject()
    {
      if Arr? then aprops else props
    }
  }

  /** JavaScript's conversion to boolean: `undefined`, `null`, `false`, `0` and `""` are falsy. */
  predicate Truthy(v: JsValue) {
    match v
    case Undefined => false
    case Null => false
    case Bool(b) => b
    case Num(n) => n != 0
    case Str(s) => s != ""
    case Arr(_, _) => true
    case Obj(_) => true
  }

  /** The `typeof` operator; `typeof null` is `"object"`, as in JavaScript. */
  function TypeOf(v: JsValue): string {
    match v
    case Undefined => "undefined"
    case Null => "object"
    case Bool(_) => "boolean"
    case Num(_) => "number"
    case Str(_) => "string"
    case Arr(_, _) => "object"
    case Obj(_) => "object"
  }

  /** `v.hasOwnProperty(k)` */
  predicate HasOwn(v: JsValue, k: string) {
    v.IsObject() && k in v.OwnProperties()
  }

  /** Property read `v[k]`: `undefined` when the property is absent or `v` is a primitive. */
  function Get(v: JsValue, k: string): JsValue {
    if HasOwn(v, k) then v.OwnProperties()[k] else Undefined
  }

  /** Property write `v[k] = x` on an object or an array. */
  function Put(v: JsValue, k: string, x: JsValue): (r: JsValue)
    requires v.IsObject()
    ensures r.IsObject() && r.Arr? == v.Arr?
    ensures HasOwn(r, k) && Get(r, k) == x
    ensures forall k' :: k' != k ==> HasOwn(r, k') == HasOwn(v, k') && Get(r, k') == Get(v, k')
    ensures r.Arr? ==> r.elems == v.elems
  {
    match v
    case Arr(es, ps) => Arr(es, ps[k := x])
    case Obj(ps) => Obj(ps[k := x])
  }

  /** `delete v[k]` on an object or an array. */
  function Delete(v: JsValue, k: string): (r: JsValue)
    requires v.IsObject()
    ensures r.IsObject() && r.Arr? == v.Arr?
    ensures !HasOwn(r, k) && Get(r, k) == Undefined
    ensures forall k' :: k' != k ==> HasOwn(r, k') == HasOwn(v, k') && Get(r, k') == Get(v, k')
    ensures r.Arr? ==> r.elems == v.elems
  {
    match v
    case Arr(es, ps) => Arr(es, ps - {k})
    case Obj(ps) => Obj(ps - {k})
  }

  /** The `a || b` operator: the first operand when it is truthy, else the second. */
  function Or(a: JsValue, b: JsValue): (r: JsValue)
    ensures Truthy(a) ==> r == a
    ensures !Truthy(a) ==> r == b
  {
    if Truthy(a) then a else b
  }

  /** An object literal with one property, `{k: x}`. */
  function Singleton(k: string, x: JsValue): (r: JsValue)
    ensures r.Obj? && r.props.Keys == {k} && Get(r, k) == x
  {
    Obj(map[k := x])
  }

  /** Decimal digits of a natural number. */
  function NatToString(n: nat): (r: string)
    ensures |r| > 0
    ensures forall i :: 0 <= i < |r| ==> '0' <= r[i] <= '9'
    decreases n
  {
    var d := ['0' + (n % 10) as char];
    if n < 10 then d else NatToString(n / 10) + d
  }

  /**
   * The string a value becomes when used as a property name. For objects
   * this is the default `"[object Object]"`; for arrays, the elements joined
   * by commas with `null` and `undefined` elements left empty.
   */
  function ToKey(v: JsValue): string {
    match v
    case Undefined => "undefined"
    case Null => "null"
    case Bool(b) => if b then "true" else "false"
    case Num(n) => if n < 0 then "-" + NatToString(-n) else NatToString(n)
    case Str(s) => s
    case Arr(es, _) => JoinElements(es)
    case Obj(_) => "[object Object]"
  }

  function JoinElements(es: seq<JsValue>): string
    decreases es
  {
    if es == [] then ""
    else
      var first := if es[0].Undefined? || es[0].Null? then "" else ToKey(es[0]);
      if |es| == 1 then first else first + "," + JoinElements(es[1..])
  }

  /** Writing one property and reading another leaves the other untouched; reading it back gives the value. */
  lemma PutGet(v: JsValue, k: string, k': string, x: JsValue)
    requires v.IsObject()
    ensures Get(Put(v, k, x), k') == if k' == k then x else Get(v, k')
  {
  }

  /** A property that is absent reads as `undefined`, which is falsy. */
  lemma AbsentIsFalsy(v: JsValue, k: string)
    requires !HasOwn(v, k)
    ensures Get(v, k) == Undefined && !Truthy(Get(v, k))
  {
  }
}
