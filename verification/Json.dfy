/** JSON values as mathematical trees: the meaning of a cJSON item. */
module Json {
  import opened Bytes

  datatype Value =
    | Null
    | False
    | True
    | Number(number: real)
    | String(text: seq<byte>)
    | Array(elems: Items)
    | Object(members: Items)

  /** The child chain of an array or object, in order; only object members carry a key. */
  datatype Items = Nil | Cons(key: Option<seq<byte>>, value: Value, rest: Items)

  const INT_MAX := 0x7FFF_FFFF
  const INT_MIN := -0x8000_0000

  predicate IsInt(d: real) {
    d == d.Floor as real && INT_MIN <= d.Floor <= INT_MAX
  }

  /** The values a text can carry both ways: C-int numbers, C strings, keys exactly on object members. */
  ghost predicate Printable(v: Value) {
    match v
    case Number(d) => IsInt(d)
    case String(s) => NulFree(s)
    case Array(l) => PrintableItems(l, false)
    case Object(l) => PrintableItems(l, true)
    case _ => true
  }

  ghost predicate PrintableItems(l: Items, keyed: bool) {
    match l
    case Nil => true
    case Cons(k, v, rest) =>
      k.Some? == keyed && (k.Some? ==> NulFree(k.value)) && Printable(v) && PrintableItems(rest, keyed)
  }

  /** No string or key holds a terminator. */
  ghost predicate Textual(v: Value) {
    match v
    case String(s) => NulFree(s)
    case Array(l) => TextualItems(l)
    case Object(l) => TextualItems(l)
    case _ => true
  }

  ghost predicate TextualItems(l: Items) {
    match l
    case Nil => true
    case Cons(k, v, rest) => (k.Some? ==> NulFree(k.value)) && Textual(v) && TextualItems(rest)
  }
}
