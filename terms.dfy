/** The shared vocabulary of the trait rules: tokens tagged with a term class,
    and the lookups into the term tables (`replace` and `type` columns), which
    are plain maps here. */
module Terms {

  datatype Option<T> = None | Some(value: T)

  /** A token as the resolvers see it: its lower-case text (`token.lower_`) and
      the term class the vocabulary lookup gave it (`token._.term`, the empty
      string when it has none). */
  datatype Token = Token(lower: string, term: string)

  /** Term class of the dispersal keywords, shared by both dispersal rules. */
  const DispersalTerm := "dispersal_term"

  /** `table.get(key)`. */
  function Get(table: map<string, string>, key: string): (r: Option<string>)
    ensures r.Some? <==> key in table
    ensures r.Some? ==> r.value == table[key]
  {
    if key in table then Some(table[key]) else None
  }

  /** `replace.get(key, key)`: the normalised form of a keyword. */
  function Normalize(replace: map<string, string>, key: string): (r: string)
    ensures key in replace ==> r == replace[key]
    ensures key !in replace ==> r == key
  {
    if key in replace then replace[key] else key
  }

  /** The two-stage `type` lookup both dispersal resolvers use: the keyword
      itself first, and only on a miss its `replace`-normalised form. */
  function LookupType(types: map<string, string>, replace: map<string, string>, key: string): (r: Option<string>)
    ensures r.Some? ==> r.value in types.Values
    ensures key in types ==> r == Some(types[key])
    ensures key !in types ==> (r.Some? <==> Normalize(replace, key) in types)
    ensures key !in types && r.Some? ==> r.value == types[Normalize(replace, key)]
  {
    match Get(types, key)
    case Some(t) => Some(t)
    case None => Get(types, Normalize(replace, key))
  }
}
