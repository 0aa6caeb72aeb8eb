/** The in-memory paste store (`MemoryStore` in src/lib/stores/memory.ts): a
    finite map from paste id to serialized record, read through `|| null`, so a
    stored empty string reads back as absent. */
module MemoryStore {
  import opened Common

  type Store = map<string, string>

  /** A freshly constructed store holds nothing. */
  const Empty: Store := map[]

  /** `get(id)`: the stored text, or `None` when the id is unset or maps to the
      falsy empty string. */
  function Get(s: Store, id: string): (r: Option<string>)
    ensures r.Some? ==> id in s && s[id] == r.value && r.value != ""
    ensures r.None? ==> id !in s || s[id] == ""
  {
    if id in s && s[id] != "" then Some(s[id]) else None
  }

  /** `set(id, value)`: overwrites whatever `id` held. */
  function Set(s: Store, id: string, value: string): (r: Store)
    ensures r.Keys == s.Keys + {id}
    ensures Get(r, id) == if value == "" then None else Some(value)
    ensures forall other :: other != id ==> Get(r, other) == Get(s, other)
  {
    s[id := value]
  }

  /** Nothing can be read from a store that was never written. */
  lemma GetEmpty(id: string)
    ensures Get(Empty, id) == None
  {
  }

  /** The last write to an id wins. */
  lemma LastWriteWins(s: Store, id: string, first: string, second: string)
    ensures Set(Set(s, id, first), id, second) == Set(s, id, second)
  {
  }

  /** Writes to different ids commute. */
  lemma SetsCommute(s: Store, a: string, va: string, b: string, vb: string)
    requires a != b
    ensures Set(Set(s, a, va), b, vb) == Set(Set(s, b, vb), a, va)
  {
  }
}
