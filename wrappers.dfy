/** Optional values, standing in for Go's nil pointers and absent map entries. */
module Wrappers {

  datatype Option<+T> = None | Some(value: T)

  /** Go's `m[k]`: the stored value, or the zero value of the value type when `k` is absent. */
  function Get<K, V>(m: map<K, V>, k: K, zero: V): V
  {
    if k in m then m[k] else zero
  }
}
