/** The dispersal-traits rule with negation: a span holds an optional negator
    ("no", "without", "lacking") and one or more dispersal or absence terms; the
    space-joined lower-case text of those terms is looked up in the `type`
    column (directly, then through `replace`), and a negated span gets the
    `_absent` suffix, at most once. */
module DispersalTraitsRule {
  import opened Terms
  import opened Text

  const DispersalAbsence := "dispersal_absence"
  const DispersalNegator := "dispersal_negator"
  const AbsentSuffix := "_absent"

  /** The DispersalTraits trait; it is built for every match, with no value
      when the lookup fails. */
  datatype DispersalTraits = DispersalTraits(dispersalTraits: Option<string>)

  /** `any(t._.term == "dispersal_negator" for t in ent)`. */
  function Negated(ent: seq<Token>): (r: bool)
    ensures r <==> exists i :: 0 <= i < |ent| && ent[i].term == DispersalNegator
  {
    if |ent| == 0 then false
    else ent[0].term == DispersalNegator || Negated(ent[1..])
  }

  predicate IsDispersalToken(t: Token) {
    t.term == DispersalTerm || t.term == DispersalAbsence
  }

  /** The dispersal and absence tokens of a span, in span order. */
  function DispersalTokens(ent: seq<Token>): (r: seq<Token>)
    ensures |r| <= |ent|
    ensures forall i :: 0 <= i < |r| ==> IsDispersalToken(r[i])
  {
    if |ent| == 0 then []
    else (if IsDispersalToken(ent[0]) then [ent[0]] else []) + DispersalTokens(ent[1..])
  }

  /** The selected tokens are exactly the span's dispersal and absence tokens. */
  lemma {:induction false} DispersalTokensMembers(ent: seq<Token>, t: Token)
    ensures t in DispersalTokens(ent) <==> t in ent && IsDispersalToken(t)
  {
    if |ent| > 0 {
      DispersalTokensMembers(ent[1..], t);
      assert ent == [ent[0]] + ent[1..];
    }
  }

  /** Selecting the dispersal tokens commutes with concatenation, so the
      selection keeps them in span order. */
  lemma {:induction false} DispersalTokensAppend(a: seq<Token>, b: seq<Token>)
    ensures DispersalTokens(a + b) == DispersalTokens(a) + DispersalTokens(b)
  {
    if |a| == 0 {
      assert a + b == b;
    } else {
      assert (a + b)[1..] == a[1..] + b;
      DispersalTokensAppend(a[1..], b);
    }
  }

  function Lowers(ts: seq<Token>): (r: seq<string>)
    ensures |r| == |ts|
    ensures forall i :: 0 <= i < |ts| ==> r[i] == ts[i].lower
  {
    seq(|ts|, i requires 0 <= i < |ts| => ts[i].lower)
  }

  /** `" ".join(t.lower_ for t in dispersal_tokens).strip()`: a piece of the
      joined text with no whitespace at either end. */
  function MatchKey(ent: seq<Token>): (r: string)
    ensures r == [] || (!IsSpace(r[0]) && !IsSpace(r[|r| - 1]))
    ensures exists lo: nat :: TrimmedFrom(Join(Lowers(DispersalTokens(ent)), " "), r, lo)
  {
    var joined := Join(Lowers(DispersalTokens(ent)), " ");
    StripShape(joined);
    Strip(joined)
  }

  /** The looked-up type before any suffixing; none when the span has no
      dispersal token. */
  function ResolvedType(types: map<string, string>, replace: map<string, string>, ent: seq<Token>): (r: Option<string>)
    ensures DispersalTokens(ent) == [] ==> r.None?
    ensures DispersalTokens(ent) != [] ==> r == LookupType(types, replace, MatchKey(ent))
  {
    if |DispersalTokens(ent)| > 0 then LookupType(types, replace, MatchKey(ent)) else None
  }

  /** `dispersal_traits_match`. */
  function DispersalTraitsMatch(ent: seq<Token>, types: map<string, string>, replace: map<string, string>)
    : (r: DispersalTraits)
    ensures var t := ResolvedType(types, replace, ent);
      && (t.None? <==> r.dispersalTraits.None?)
      && (!Negated(ent) ==> r.dispersalTraits == t)
      && (Negated(ent) && t.Some? ==> EndsWith(r.dispersalTraits.value, AbsentSuffix))
      && (Negated(ent) && t.Some? && EndsWith(t.value, AbsentSuffix) ==> r.dispersalTraits == t)
      && (Negated(ent) && t.Some? && !EndsWith(t.value, AbsentSuffix) ==>
            r.dispersalTraits == Some(t.value + AbsentSuffix))
  {
    var negated := Negated(ent);
    var dispersalType := ResolvedType(types, replace, ent);
    if dispersalType.Some? && negated && !EndsWith(dispersalType.value, AbsentSuffix) then
      EndsWithAppended(dispersalType.value, AbsentSuffix);
      DispersalTraits(Some(dispersalType.value + AbsentSuffix))
    else
      DispersalTraits(dispersalType)
  }

  /** The result never carries more than one suffix beyond what the term table
      gave: it is the looked-up type, or that type with `_absent` appended
      exactly once. */
  lemma SuffixAtMostOnce(ent: seq<Token>, types: map<string, string>, replace: map<string, string>)
    requires ResolvedType(types, replace, ent).Some?
    ensures var t := ResolvedType(types, replace, ent).value;
      var v := DispersalTraitsMatch(ent, types, replace).dispersalTraits.value;
      v == t || (v == t + AbsentSuffix && !EndsWith(t, AbsentSuffix))
  {
  }

  lemma DispersalTokensSingle(t: Token)
    requires IsDispersalToken(t)
    ensures DispersalTokens([t]) == [t]
  {
    assert [t][1..] == [];
  }

  /** The span holding just the keyword `k` has `k` as its lookup key. */
  lemma SingleKeywordKey(k: string)
    requires k == [] || (!IsSpace(k[0]) && !IsSpace(k[|k| - 1]))
    ensures DispersalTokens([Token(k, DispersalTerm)]) == [Token(k, DispersalTerm)]
    ensures MatchKey([Token(k, DispersalTerm)]) == k
  {
    DispersalTokensSingle(Token(k, DispersalTerm));
    assert Lowers([Token(k, DispersalTerm)]) == [k];
    StripTrimmed(k);
  }

  /** The span holding the keywords `k1` and `k2` has them, joined by one
      space, as its lookup key. */
  lemma TwoKeywordKey(k1: string, k2: string)
    requires k1 != [] && !IsSpace(k1[0])
    requires k2 != [] && !IsSpace(k2[|k2| - 1])
    ensures MatchKey([Token(k1, DispersalTerm), Token(k2, DispersalTerm)]) == k1 + " " + k2
  {
    var t1 := Token(k1, DispersalTerm);
    var t2 := Token(k2, DispersalTerm);
    var span := [t1, t2];
    assert span[1..] == [t2];
    DispersalTokensSingle(t2);
    assert DispersalTokens(span) == span;
    assert Lowers(span) == [k1] + [k2];
    JoinAppend([k1], [k2], " ");
    var key := k1 + " " + k2;
    assert key[0] == k1[0] && key[|key| - 1] == k2[|k2| - 1];
    StripTrimmed(key);
  }

  /** A single keyword `k` with a type resolves to exactly that type. */
  lemma SingleKeyword(k: string, types: map<string, string>, replace: map<string, string>)
    requires k in types
    requires k == [] || (!IsSpace(k[0]) && !IsSpace(k[|k| - 1]))
    ensures DispersalTraitsMatch([Token(k, DispersalTerm)], types, replace).dispersalTraits == Some(types[k])
  {
    var one := [Token(k, DispersalTerm)];
    assert ResolvedType(types, replace, one) == Some(types[k]) by {
      SingleKeywordKey(k);
    }
    assert !Negated(one) by {
      assert one[0].term != DispersalNegator;
      assert one[1..] == [];
    }
  }

  /** "no k": the same keyword after a negator resolves to its type marked
      absent, and is not suffixed again when the type already denotes absence. */
  lemma NegatedKeyword(k: string, neg: string, types: map<string, string>, replace: map<string, string>)
    requires k in types
    requires k == [] || (!IsSpace(k[0]) && !IsSpace(k[|k| - 1]))
    ensures var v := DispersalTraitsMatch([Token(neg, DispersalNegator), Token(k, DispersalTerm)], types, replace);
      v.dispersalTraits == Some(if EndsWith(types[k], AbsentSuffix) then types[k] else types[k] + AbsentSuffix)
  {
    var two := [Token(neg, DispersalNegator), Token(k, DispersalTerm)];
    assert ResolvedType(types, replace, two) == Some(types[k]) by {
      SingleKeywordKey(k);
      assert two[1..] == [Token(k, DispersalTerm)];
      assert DispersalTokens(two) == [Token(k, DispersalTerm)];
      assert MatchKey(two) == k;
    }
    assert Negated(two) by {
      assert two[0].term == DispersalNegator;
    }
  }
}
