/**
 * The slice of JavaScript values the tool handles: option bundles, parsed
 * configuration objects and their properties. Numbers and null do not occur
 * in these places and are not modelled.
 */
module JsValues {

  datatype Value =
    | Undefined
    | Str(s: string)
    | Bool(b: bool)
    | Obj(fields: map<string, Value>)

  /** JavaScript truthiness: undefined, the empty string and false are falsy; every object is truthy. */
  predicate Truthy(v: Value): (b: bool)
    ensures v == Undefined || v == Str("") || v == Bool(false) ==> !b
    ensures v.Obj? || v == Bool(true) || (v.Str? && v.s != "") ==> b
  {
    match v
    case Undefined => false
    case Str(s) => s != ""
    case Bool(b) => b
    case Obj(_) => true
  }

  /** Property access `o[key]`: a property that is not there reads as undefined. */
  function Get(o: map<string, Value>, key: string): (v: Value)
    ensures key !in o ==> v == Undefined
    ensures key in o ==> v == o[key]
  {
    if key in o then o[key] else Undefined
  }

  /** An option counts as missing when it is falsy (`!options[key]`). */
  predicate Missing(o: map<string, Value>, key: string): (m: bool)
    ensures key !in o ==> m
    ensures key in o && o[key].Str? ==> (m <==> o[key].s == "")
    ensures key in o && o[key].Obj? ==> !m
  {
    !Truthy(Get(o, key))
  }

  /**
   * String conversion as done by `+` on strings and by property keys:
   * undefined becomes the text "undefined", an object "[object Object]".
   */
  function ToJsString(v: Value): (r: string)
    ensures v.Str? ==> r == v.s
    ensures v.Undefined? ==> r == "undefined"
  {
    match v
    case Undefined => "undefined"
    case Str(s) => s
    case Bool(b) => if b then "true" else "false"
    case Obj(_) => "[object Object]"
  }

  lemma MissingOptionIsAbsentOrEmpty(o: map<string, Value>, key: string)
    requires forall k :: k in o ==> o[k].Str?
    ensures Missing(o, key) <==> key !in o || o[key] == Str("")
  {
  }
}
