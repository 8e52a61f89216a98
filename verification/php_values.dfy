/** PHP runtime values as far as the type gate can observe them, together with
    the two host queries (`class_exists`, `instanceof`) the gate relies on. */
module PhpValues {

  /** An object handle. Which classes it is an instance of is known only to the
      host runtime (see `Host.isA`). */
  datatype ObjectRef = ObjectRef(id: nat)

  /** A key of a PHP array. */
  datatype ArrayKey = IntKey(k: int) | StringKey(s: string)

  /** A PHP value. Floats are kept as their IEEE-754 bit pattern: nothing here
      computes with them, only their runtime kind matters. */
  datatype Value =
    | Null
    | Boolean(b: bool)
    | Integer(i: int)
    | Double(bits: bv64)
    | Str(s: string)
    | Array(entries: seq<(ArrayKey, Value)>)
    | Object(ref: ObjectRef)
    | Resource(handle: nat, closed: bool)

  /** Every name PHP's `gettype` can return for the values above. */
  const GetTypeNames: set<string> :=
    {"NULL", "boolean", "integer", "double", "string", "array", "object", "resource", "resource (closed)"}

  /** PHP's `gettype`: the runtime kind name of a value. */
  function GetType(v: Value): (name: string)
    ensures name in GetTypeNames
  {
    match v
    case Null => "NULL"
    case Boolean(_) => "boolean"
    case Integer(_) => "integer"
    case Double(_) => "double"
    case Str(_) => "string"
    case Array(_) => "array"
    case Object(_) => "object"
    case Resource(_, closed) => if closed then "resource (closed)" else "resource"
  }

  /** Two values have the same runtime kind: same constructor, and for
      resources the same open/closed state. */
  predicate SameKind(v: Value, w: Value) {
    match v
    case Null => w.Null?
    case Boolean(_) => w.Boolean?
    case Integer(_) => w.Integer?
    case Double(_) => w.Double?
    case Str(_) => w.Str?
    case Array(_) => w.Array?
    case Object(_) => w.Object?
    case Resource(_, closed) => w.Resource? && w.closed == closed
  }

  /** `gettype` names exactly the runtime kind: two values get the same name
      iff they are of the same kind. */
  lemma GetTypeIdentifiesKind(v: Value, w: Value)
    ensures GetType(v) == GetType(w) <==> SameKind(v, w)
  {
  }

  /** The host runtime's answers to `class_exists($name)` and to
      `$object instanceof $name`. Both are opaque to this model (autoloading,
      interfaces and inheritance all live behind them). */
  datatype Host = Host(classExists: string -> bool, isA: (ObjectRef, string) -> bool)

  /** PHP's `$value instanceof $name`: false for every value that is not an
      object, otherwise the host's answer. */
  function InstanceOf(host: Host, v: Value, name: string): (r: bool)
    ensures r ==> v.Object?
    ensures v.Object? ==> (r <==> host.isA(v.ref, name))
  {
    v.Object? && host.isA(v.ref, name)
  }
}
