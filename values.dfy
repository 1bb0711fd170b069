/** The Python values that flow through the checklist items and the analysis
    dictionaries, and Python's truthiness test (`if x`, `not x`) on them. */
module Values {

  datatype Option<T> = None | Some(value: T)

  /** A Python object as the protocol checker sees it: `None`, a bool, a number,
      a string, a list or a dict with string keys. */
  datatype Value =
    | VNone
    | VBool(b: bool)
    | VInt(i: int)
    | VReal(r: real)
    | VStr(s: string)
    | VList(items: seq<Value>)
    | VDict(entries: map<string, Value>)

  /** Python's truth value: `None`, `False`, zero, and empty strings, lists and dicts
      are false; everything else is true. */
  predicate Truthy(v: Value) {
    match v
    case VNone => false
    case VBool(b) => b
    case VInt(i) => i != 0
    case VReal(r) => r != 0.0
    case VStr(s) => s != []
    case VList(items) => items != []
    case VDict(entries) => entries != map[]
  }

  /** The values Python's documentation lists as false: `None`, `False`, the zeros,
      and the empty string, list and dict. */
  function FalsyValues(): set<Value> {
    {VNone, VBool(false), VInt(0), VReal(0.0), VStr([]), VList([]), VDict(map[])}
  }

  /** A value is truthy exactly when it is none of the listed false values. */
  lemma TruthyUnlessFalsy(v: Value)
    ensures Truthy(v) <==> v !in FalsyValues()
  {
  }

  /** A list of Python strings. */
  function Strings(xs: seq<string>): (v: Value)
    ensures Truthy(v) <==> xs != []
  {
    VList(seq(|xs|, i requires 0 <= i < |xs| => VStr(xs[i])))
  }
}
