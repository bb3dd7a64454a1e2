/** Reading a key from a plain JavaScript object literal used as a lookup table (`table[key]`).
    Besides its own entries such an object answers every name it inherits from
    `Object.prototype`, so a key like "constructor" finds a function instead of `undefined`. */
module JsObjects {
  import opened Wrappers

  /** A value read from a lookup table: one of its own string entries, or an inherited member. */
  datatype JsValue = Str(s: string) | Inherited(name: string)

  /** The names every plain object inherits from `Object.prototype`. */
  const PrototypeNames: set<string> := {
    "constructor", "__proto__", "__defineGetter__", "__defineSetter__", "__lookupGetter__",
    "__lookupSetter__", "hasOwnProperty", "isPrototypeOf", "propertyIsEnumerable",
    "toLocaleString", "toString", "valueOf"}

  /** `table[key]` as written: own entry first, then the prototype chain, else `undefined`. */
  function Get(table: map<string, string>, key: string): (r: Option<JsValue>)
    ensures key in table ==> r == Some(Str(table[key]))
    ensures key !in table ==> (r.Some? <==> key in PrototypeNames)
    ensures r.Some? && r.value.Inherited? ==> r.value.name == key
  {
    if key in table then Some(Str(table[key]))
    else if key in PrototypeNames then Some(Inherited(key))
    else None
  }

  /** Own-property lookup: what a `Map` or `Object.hasOwn` guard would give. */
  function GetOwn(table: map<string, string>, key: string): (r: Option<string>)
    ensures r.Some? <==> key in table
    ensures r.Some? ==> r.value == table[key]
  {
    if key in table then Some(table[key]) else None
  }

  /** JavaScript truthiness of a looked-up value: the empty string is falsy, functions and
      objects are truthy. */
  predicate Truthy(v: JsValue) {
    v.Inherited? || v.s != ""
  }

  /** The source text of the `Object` constructor as JavaScript prints it. */
  const ObjectSource: string := "function Object() { [native code] }"

  /** `${v}`: a string is itself; `Object.prototype` prints as "[object Object]"; the constructor
      and the methods print as native function source. */
  function ToJsString(v: JsValue): string {
    match v
    case Str(s) => s
    case Inherited(n) =>
      if n == "__proto__" then "[object Object]"
      else if n == "constructor" then ObjectSource
      else "function " + n + "() { [native code] }"
  }
}
