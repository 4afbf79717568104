/** Option, and Python's `dict.get(key, default)` on string-valued maps. */
module Wrappers {

  /** A value that may be missing: Python's `None` or a present value. */
  datatype Option<+T> = None | Some(value: T)

  /** `d.get(key, "")`: the stored value, or the empty string when the key is absent. */
  function Get(d: map<string, string>, key: string): (r: string)
    ensures key in d ==> r == d[key]
    ensures key !in d ==> r == ""
  {
    if key in d then d[key] else ""
  }

  /** Storing a value under a key makes `get` return it for that key and
      leaves every other key's `get` as it was. */
  lemma GetAfterStore(d: map<string, string>, key: string, v: string, other: string)
    ensures Get(d[key := v], key) == v
    ensures other != key ==> Get(d[key := v], other) == Get(d, other)
  {
  }
}
