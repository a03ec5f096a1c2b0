/**
 * The value PHP holds after `Json::decode` of the host-sign header.
 *
 * The decoder runs with `$asArray = true`, so JSON objects and JSON lists both
 * arrive as PHP arrays: an ordered key/value table whose keys are integers or
 * strings. The decoder itself is not part of this model; only the shape of its
 * result is.
 */
module PhpValue {

  /** A PHP array key. */
  datatype Key = IntKey(i: int) | StrKey(s: string)

  datatype Value =
    | Null
    | Bool(b: bool)
    | Int(i: int)
    | Float(r: real)
    | Str(s: string)
    | Array(entries: map<Key, Value>)

  /** PHP `isset($v[$key])`: `$v` is an array holding `$key`, and the value there is not null. */
  predicate IsSet(v: Value, key: string)
  {
    v.Array? && StrKey(key) in v.entries && !v.entries[StrKey(key)].Null?
  }

  /** PHP `is_string($v[$key])` on an array whose `$key` is set. */
  predicate IsStringAt(v: Value, key: string)
    requires IsSet(v, key)
  {
    v.entries[StrKey(key)].Str?
  }
}
