/** The page's `localStorage`, seen as a map from string keys to string values,
    together with the JavaScript truthiness that the theme controller applies to
    what `getItem` returns. */
module Storage {

  /** `null` or a value: what `localStorage.getItem` returns. */
  datatype Option<+T> = None | Some(value: T)

  type Store = map<string, string>

  /** `localStorage.getItem(key)`: the stored string, or `null` when the key is absent. */
  function GetItem(s: Store, key: string): (r: Option<string>)
    ensures r.Some? <==> key in s
    ensures r.Some? ==> r.value == s[key]
  {
    if key in s then Some(s[key]) else None
  }

  /** `localStorage.setItem(key, value)`: the key reads back as the value, every
      other key reads back as before. */
  function SetItem(s: Store, key: string, value: string): (r: Store)
    ensures GetItem(r, key) == Some(value)
    ensures forall k :: k != key ==> GetItem(r, k) == GetItem(s, k)
    ensures r.Keys == s.Keys + {key}
  {
    s[key := value]
  }

  /** JavaScript truthiness of a `string | null`, as used by `||` and `!`:
      `null` and the empty string are falsy, every other string is truthy. */
  function Truthy(v: Option<string>): (b: bool)
    ensures b <==> v != None && v != Some("")
  {
    v.Some? && v.value != ""
  }
}
