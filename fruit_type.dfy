/** The fruit-type rule (drupe, achene, berry, ...): a matched span is turned
    into a FruitType trait whose part is the fruit-type keyword, normalised
    through the `replace` column of the fruit-type term table. */
module FruitTypeRule {
  import opened Terms

  /** Term class of the fruit-type keywords. */
  const FruitTypeTerm := "fruit_type_term"

  /** The marker that makes the part linker copy this trait's part to its
      children. */
  const PartTrait := "part"

  /** The FruitType trait. `linkAs` is its `_trait` attribute: `None` stands
      for whatever the generic trait constructor leaves there, which is not
      part of this model. */
  datatype FruitType = FruitType(part: string, linkAs: Option<string>)

  /** The position of the first fruit-type token of a span, if there is one. */
  function FirstFruitTypeToken(ent: seq<Token>): (r: Option<nat>)
    ensures r.Some? ==> r.value < |ent| && ent[r.value].term == FruitTypeTerm
    ensures r.Some? ==> forall j :: 0 <= j < r.value ==> ent[j].term != FruitTypeTerm
    ensures r.None? <==> forall j :: 0 <= j < |ent| ==> ent[j].term != FruitTypeTerm
  {
    if |ent| == 0 then None
    else if ent[0].term == FruitTypeTerm then Some(0)
    else match FirstFruitTypeToken(ent[1..])
      case None => None
      case Some(i) => Some(i + 1)
  }

  /** `fruit_type_match`: the part is the first fruit-type token's keyword,
      normalised through `replace`; a span without one yields no trait. */
  method FruitTypeMatch(ent: seq<Token>, replace: map<string, string>) returns (r: Option<FruitType>)
    ensures r.None? <==> forall j :: 0 <= j < |ent| ==> ent[j].term != FruitTypeTerm
    ensures r.Some? ==> r.value.linkAs == Some(PartTrait)
    ensures r.Some? ==> FirstFruitTypeToken(ent).Some?
    ensures r.Some? ==> var tok := ent[FirstFruitTypeToken(ent).value];
      && (tok.lower in replace ==> r.value.part == replace[tok.lower])
      && (tok.lower !in replace ==> r.value.part == tok.lower)
  {
    var part: Option<string> := None;
    var i := 0;
    while i < |ent|
      invariant 0 <= i <= |ent|
      invariant part == None
      invariant forall j :: 0 <= j < i ==> ent[j].term != FruitTypeTerm
    {
      if ent[i].term == FruitTypeTerm {
        part := Some(Normalize(replace, ent[i].lower));
        break;
      }
      i := i + 1;
    }
    if part.None? {
      return None;
    }
    var rec := FruitType(part.value, None);
    // So the part linker copies .part to the child traits.
    rec := rec.(linkAs := Some(PartTrait));
    r := Some(rec);
  }
}
