/** The Python values the grammar actions hand to each other: `None`, a
    boolean, an integer, a string, an atom object or a list of such
    values. */
module Values {
  import opened Atomic

  datatype Value =
    | NoneValue
    | BoolValue(b: bool)
    | IntValue(i: int)
    | StrValue(s: string)
    | AtomValue(atom: Atom)
    | ListValue(items: seq<Value>)

  /** Python truthiness.  `None`, `False`, `0`, `""` and `[]` are false;
      an atom object is always true, because neither `Atom` class defines
      `__bool__` or `__len__`. */
  predicate Truthy(v: Value) {
    match v
    case NoneValue => false
    case BoolValue(b) => b
    case IntValue(i) => i != 0
    case StrValue(s) => s != ""
    case AtomValue(_) => true
    case ListValue(items) => items != []
  }
}
