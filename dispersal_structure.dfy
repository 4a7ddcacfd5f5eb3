/** The dispersal-structure rule (wing, pappus, hooks, ...): the structure type
    of a matched span is the `type` of its first dispersal-term token that has
    one, looked up directly and then through the `replace` column. There is no
    negation in this rule. */
module DispersalStructureRule {
  import opened Terms

  /** The DispersalStructure trait; `from_ent` always builds one, so a span
      whose tokens resolve to nothing gives a trait with no structure. */
  datatype DispersalStructure = DispersalStructure(dispersalStructure: Option<string>)

  /** The type a single token contributes: only dispersal-term tokens count. */
  function TokenType(types: map<string, string>, replace: map<string, string>, t: Token): (r: Option<string>)
    ensures t.term != DispersalTerm ==> r.None?
    ensures t.term == DispersalTerm ==> r == LookupType(types, replace, t.lower)
  {
    if t.term == DispersalTerm then LookupType(types, replace, t.lower) else None
  }

  /** The position of the first token that resolves to a type. */
  function FirstResolving(types: map<string, string>, replace: map<string, string>, ent: seq<Token>): (r: Option<nat>)
    ensures r.Some? ==> r.value < |ent| && TokenType(types, replace, ent[r.value]).Some?
    ensures r.Some? ==> forall j :: 0 <= j < r.value ==> TokenType(types, replace, ent[j]).None?
    ensures r.None? <==> forall j :: 0 <= j < |ent| ==> TokenType(types, replace, ent[j]).None?
  {
    if |ent| == 0 then None
    else if TokenType(types, replace, ent[0]).Some? then Some(0)
    else match FirstResolving(types, replace, ent[1..])
      case None => None
      case Some(i) => Some(i + 1)
  }

  /** `dispersal_structure_match`: scan the span, stop at the first
      dispersal-term token whose type lookup succeeds. */
  method DispersalStructureMatch(ent: seq<Token>, types: map<string, string>, replace: map<string, string>)
    returns (r: DispersalStructure)
    ensures r.dispersalStructure.None? <==> FirstResolving(types, replace, ent).None?
    ensures r.dispersalStructure.Some? ==>
      var i := FirstResolving(types, replace, ent).value;
      && ent[i].term == DispersalTerm
      && r.dispersalStructure == LookupType(types, replace, ent[i].lower)
    ensures r.dispersalStructure.Some? ==> r.dispersalStructure.value in types.Values
  {
    var dispersalType: Option<string> := None;
    var i := 0;
    while i < |ent|
      invariant 0 <= i <= |ent|
      invariant dispersalType == None
      invariant forall j :: 0 <= j < i ==> TokenType(types, replace, ent[j]).None?
    {
      var token := ent[i];
      if token.term == DispersalTerm {
        var key := token.lower;
        dispersalType := Get(types, key);
        if dispersalType.None? {
          // Try the replace-normalised form as the key for the type lookup.
          var norm := Normalize(replace, key);
          dispersalType := Get(types, norm);
        }
        if dispersalType.Some? {
          break;
        }
      }
      i := i + 1;
    }
    r := DispersalStructure(dispersalType);
  }
}
