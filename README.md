# FloraTraiter: fruit-type linking and dispersal traits, modelled in Dafny

FloraTraiter extracts plant traits from treatment text. This project models
five small pieces of it:

- **The fruit-type rule** (`FruitTypeRule`, `fruit_type.dfy`). It turns a span
  holding a fruit-type keyword (drupe, achene, berry, ...) into a `FruitType`
  trait. The part is the first fruit-type token, normalised through the
  term table's `replace` column. The trait is marked so the part linker copies
  its part to dependent traits. A span without such a token gives no trait.
- **The dispersal-structure rule** (`DispersalStructureRule`,
  `dispersal_structure.dfy`). The structure type is the `type` of the first
  `dispersal_term` token whose lookup succeeds. The lookup tries the keyword
  first and, only on a miss, its `replace` form. There is no negation here.
- **The dispersal-traits rule** (`DispersalTraitsRule`, `dispersal_traits.dfy`).
  It detects a negator in the span and builds a key: the space-joined
  lower-case text of the dispersal and absence tokens. It resolves the key with
  the same two-stage lookup. A negated span gets `_absent`, never twice.
- **The post-pass** (`PostProcess`, `post_process.dfy`, with the 55-entry
  fruit-type table in `FruitTypeTable`, `fruit_type_table.dfy`). It runs after
  all rules:
  1. It collects the fruit/seed part entities of the document as anchors.
  2. It re-links every `subpart` whose part names a fruit type to the part of
     the nearest anchor strictly under 50 tokens away. With no such anchor it
     uses the table's part. List parts are rewritten element by element, with
     de-duplication, and a one-element result collapses to a string.
  3. It reverses the entity list in place.
- **The dispersal writer** (`DispersalFormat`, `dispersal_format.dfy`). It
  changes an output dictionary in place. It removes every key whose lower-case
  form contains `dispersalstructure` or `dispersal_structure`, then writes 1
  under each vocabulary trait name that one of those keys held.

Shared pieces:

- `Terms` holds the token record (`lower`, `term`) and the lookups into the
  term tables. The tables are `map<string, string>` parameters.
- `Text` models the Python string operations the rules use: `lower`
  (ASCII only), `strip` with Python's whitespace set, substring test,
  `endswith`, `join` and `str(int)`.

State is modelled the way the source keeps it:

- The post-pass works on an `array<Entity>`: the local copy of `doc.ents`.
  Trait rewrites are element updates of that array, and the reversal is an
  in-place swap loop. The document is a class with an `ents` field.
- A writer dictionary is a `PropertyBag` class whose `map` field the methods
  reassign.
- The loops with `break` in the fruit-type and dispersal-structure rules are
  `while` loops.

Each of these methods is proved against a specification function. The
properties are lemmas about those functions. Among them:

- **Nearest anchor:** the nearest anchor under 50 wins; ties go to the
  earliest; with no anchor under 50 the table's part is used.
- **List rewriting:** a rewritten list is the list with every fruit type
  replaced by its resolved part, in place, except that a fruit type is
  dropped when its resolved part already occurs earlier in that list. So
  order is kept, and a resolved part is added at most once. A one-element
  result collapses to a string.
- **Reversal:** the committed list is the re-linked list reversed.
- **Running twice:** running the post-pass twice equals re-linking once with
  the original order restored.
- **The writer:** it writes only 1s, and every other value it leaves was
  there before. It removes every dispersal key and formatting is idempotent,
  provided no vocabulary name is itself a dispersal key. Without that proviso
  both fail: with the vocabulary `["xdispersalstructure"]`, the dictionary
  `{"aDispersalStructure": "xdispersalstructure"}` formats to
  `{"xdispersalstructure": 1}` and then to `{}`.

Some things the code does not do, which the model therefore does not do
either:

- The fruit-type rule normalises only through `replace`
  (`fruit_type.py:73-76`). It consults no other fruit-type table.
- The dispersal-traits rule builds one key from all dispersal tokens
  (`dispersal_traits.py:90-100`). It keeps no per-keyword trait list and
  joins no traits with pipes. It always builds a trait, with no value when
  the lookup fails.
- The writer never filters by part, never writes 0 and keeps no record of
  which key gave a trait name (`dispersal_format.py:12-35`).
- The writer's module docstring (`dispersal_format.py:1-6`) says 0 marks an
  explicit absence and that all nine trait names are written when any
  dispersal trait is present. The code writes only 1, and only under the
  present names (`dispersal_format.py:32-34`). The model follows the code.

## Model

| member | source | states |
|---|---|---|
| Terms.Get | flora/pylib/rules/dispersal_structure.py:80 | `table.get(key)`: some value exactly when the key is in the table, and then the table's value |
| Terms.Normalize | flora/pylib/rules/fruit_type.py:75 | `replace.get(key, key)`: the replacement when the key has one, else the key itself |
| Terms.LookupType | flora/pylib/rules/dispersal_traits.py:97-100 | two-stage type lookup: a hit on the keyword wins; only on a miss is the `replace` form tried; a result is always a value of the type table |
| Text.Lower | flora/pylib/rules/dispersal_traits.py:96 | lower-casing keeps the length and maps each character through the ASCII case mapping |
| Text.StripLeft | flora/pylib/writers/dispersal_format.py:19 | `lstrip`; it has no contract of its own, and StripLeftShape states what it keeps |
| Text.StripRight | flora/pylib/writers/dispersal_format.py:19 | `rstrip`; it has no contract of its own, and StripRightShape states what it keeps |
| Text.Strip | flora/pylib/writers/dispersal_format.py:19 | `strip` as `rstrip` after `lstrip`; it has no contract of its own, and StripShape, StripTrimmed and StripIdempotent state its properties |
| Text.LowerIdempotent | flora/pylib/writers/dispersal_format.py:17 | a lower-cased string is lower case and lower-casing it again changes nothing |
| Text.StripLeftShape | flora/pylib/writers/dispersal_format.py:19 | `lstrip` keeps a suffix that does not start with whitespace and drops only whitespace |
| Text.StripRightShape | flora/pylib/writers/dispersal_format.py:19 | `rstrip` keeps a prefix that does not end with whitespace and drops only whitespace |
| Text.StripShape | flora/pylib/rules/dispersal_traits.py:96 | `strip` keeps a contiguous piece of the input with no whitespace at either end and drops only whitespace around it |
| Text.StripTrimmed | flora/pylib/rules/dispersal_traits.py:96 | a string without whitespace at its ends is its own `strip` |
| Text.StripIdempotent | flora/pylib/writers/dispersal_format.py:19-20 | stripping twice is stripping once |
| Text.Contains | flora/pylib/writers/dispersal_format.py:18 | the substring test holds exactly when the substring occurs at some position |
| Text.EndsWithAppended | flora/pylib/rules/dispersal_traits.py:101-104 | a string with a suffix appended ends with that suffix |
| Text.Join | flora/pylib/rules/dispersal_traits.py:96 | `sep.join`: no parts give the empty string, one part gives that part; JoinAppend states the general case |
| Text.JoinAppend | flora/pylib/rules/dispersal_traits.py:96 | joining two non-empty lists one after the other is joining each and putting one separator between |
| Text.DigitsValue | flora/pylib/writers/dispersal_format.py:19 | the number a string of decimal digits denotes; it has no contract of its own, and NatToStringValue uses it |
| Text.NatToString | flora/pylib/writers/dispersal_format.py:19 | the rendering of a natural number is non-empty, all decimal digits, and starts with `0` exactly when the number is 0 |
| Text.NatToStringValue | flora/pylib/writers/dispersal_format.py:19 | the digits written for `n` denote `n` |
| Text.IntToString | flora/pylib/writers/dispersal_format.py:19 | `str` of an int is non-empty and starts with `-` exactly when the int is negative |
| Text.IntToStringValue | flora/pylib/writers/dispersal_format.py:19 | `str(n)` is the decimal rendering of `n`, without a leading zero, after a minus sign when `n` is negative |
| FruitTypeRule.FirstFruitTypeToken | flora/pylib/rules/fruit_type.py:73-76 | the position of the first `fruit_type_term` token: no earlier token has that class, and none exactly when no token has it |
| FruitTypeRule.FruitTypeMatch | flora/pylib/rules/fruit_type.py:70-82 | no trait exactly when the span has no fruit-type token; otherwise the part is the first such token's `replace` form (or its own text) and the trait is marked `"part"` |
| DispersalStructureRule.TokenType | flora/pylib/rules/dispersal_structure.py:77-84 | only `dispersal_term` tokens contribute a type, through the two-stage lookup |
| DispersalStructureRule.FirstResolving | flora/pylib/rules/dispersal_structure.py:76-86 | the position of the first token that resolves; every earlier one resolves to nothing, and none means no token resolves |
| DispersalStructureRule.DispersalStructureMatch | flora/pylib/rules/dispersal_structure.py:73-87 | a trait is always built; its structure is none exactly when no token resolves, else the lookup of the first resolving `dispersal_term` token, a value of the type table |
| DispersalTraitsRule.Negated | flora/pylib/rules/dispersal_traits.py:87-89 | negated exactly when some token has class `dispersal_negator` |
| DispersalTraitsRule.DispersalTokens | flora/pylib/rules/dispersal_traits.py:90-93 | the selection is no longer than the span and holds only dispersal or absence tokens |
| DispersalTraitsRule.DispersalTokensMembers | flora/pylib/rules/dispersal_traits.py:90-93 | a token is selected exactly when it is in the span and is a dispersal or absence token |
| DispersalTraitsRule.DispersalTokensAppend | flora/pylib/rules/dispersal_traits.py:90-93 | selection commutes with concatenation, so span order is kept |
| DispersalTraitsRule.Lowers | flora/pylib/rules/dispersal_traits.py:96 | the lower-case forms of the selected tokens, position by position |
| DispersalTraitsRule.MatchKey | flora/pylib/rules/dispersal_traits.py:96 | the key is a piece of the space-joined lower-case token text with no whitespace at either end |
| DispersalTraitsRule.ResolvedType | flora/pylib/rules/dispersal_traits.py:94-100 | none without dispersal tokens, else the two-stage lookup of the joined, stripped key |
| DispersalTraitsRule.DispersalTraitsMatch | flora/pylib/rules/dispersal_traits.py:83-105 | a value exactly when the lookup succeeds; unchanged when not negated; when negated it ends with `_absent`, which is appended only if not already there |
| DispersalTraitsRule.SuffixAtMostOnce | flora/pylib/rules/dispersal_traits.py:101-104 | the result is the looked-up type, or that type plus `_absent` once when it did not already end so |
| DispersalTraitsRule.DispersalTokensSingle | flora/pylib/rules/dispersal_traits.py:90-93 | a lone dispersal token is selected |
| DispersalTraitsRule.SingleKeywordKey | flora/pylib/rules/dispersal_traits.py:96 | the key of a one-keyword span is that keyword |
| DispersalTraitsRule.TwoKeywordKey | flora/pylib/rules/dispersal_traits.py:96 | the key of a two-keyword span is the two keywords joined by one space |
| DispersalTraitsRule.SingleKeyword | flora/pylib/rules/dispersal_traits.py:94-105 | a single keyword with a type resolves to exactly that type |
| DispersalTraitsRule.NegatedKeyword | flora/pylib/rules/dispersal_traits.py:85-105 | "no K" resolves to K's type marked `_absent`, without doubling the suffix when the type already ends in it |
| FruitTypeTable.FruitSeedWordsNotAchenesBerries | flora/pylib/rules/post_process.py:22-36 | no anchor word (fruit, seed, fruits, seeds) is an achene or berry type |
| FruitTypeTable.FruitSeedWordsNotCapsulesToFollicles | flora/pylib/rules/post_process.py:37-56 | no anchor word is a capsule, caryopsis, drupe or follicle type |
| FruitTypeTable.FruitSeedWordsNotConesToPomes | flora/pylib/rules/post_process.py:57-75 | no anchor word is a cone, legume, nut or pome type |
| FruitTypeTable.FruitSeedWordsNotSamarasToUtricles | flora/pylib/rules/post_process.py:76-92 | no anchor word is a samara, schizocarp, sorosis, syconium or utricle type |
| FruitTypeTable.FruitTypeToPart | flora/pylib/rules/post_process.py:22-93 | the table's keys are the 55 fruit types, every value is `"fruit"`, and no anchor word is a key |
| PostProcess.FirstWhere | flora/pylib/rules/post_process.py:114-117 | the first list element from a position on that satisfies a test; no earlier one does, and none exactly when no element does |
| PostProcess.FirstFruitSeedWord | flora/pylib/rules/post_process.py:114-117 | the first list element from a position on whose lower-case form is an anchor word; none exactly when no such element exists |
| PostProcess.AnchorOf | flora/pylib/rules/post_process.py:98-117 | an anchor's part is always one of fruit, seed, fruits, seeds |
| PostProcess.AnchorOfCases | flora/pylib/rules/post_process.py:98-117 | anchors come only from `part` entities of type `fruit_part`, keeping their extent; names never give one; a string part gives one exactly when it lower-cases to an anchor word; a list part gives at most one, from its first such element |
| PostProcess.Anchors | flora/pylib/rules/post_process.py:95-117 | at most one anchor per entity, each with an anchor word as its part; the lemmas below state completeness and order |
| PostProcess.AnchorsFromEntities | flora/pylib/rules/post_process.py:95-117 | every collected anchor is the anchor of some entity of the list |
| PostProcess.AnchorsAppend | flora/pylib/rules/post_process.py:95-117 | the anchors of two lists one after the other are the anchors of the first, then those of the second |
| PostProcess.AnchorsSingle | flora/pylib/rules/post_process.py:98-117 | a one-entity list gives exactly that entity's anchor, if it has one |
| PostProcess.AnchorsPrefix | flora/pylib/rules/post_process.py:95-117 | one more entity adds its own anchor, if any, at the end |
| PostProcess.AnchorsComplete | flora/pylib/rules/post_process.py:95-117 | every entity that gives an anchor has it collected, right after the anchors of the entities before it |
| PostProcess.Dist | flora/pylib/rules/post_process.py:141-144 | the distance is the smaller of the two absolute gaps |
| PostProcess.Closest | flora/pylib/rules/post_process.py:136-148 | the chosen anchor is strictly under 50 away, no farther than any other, strictly nearer than every earlier one; none exactly when all are 50 or more away |
| PostProcess.Underlying | flora/pylib/rules/post_process.py:132-148 | the table's part when every anchor is 50 or more away, otherwise the part of some anchor strictly under 50 |
| PostProcess.FindUnderlying | flora/pylib/rules/post_process.py:136-148 | the argmin loop yields the nearest eligible anchor's part, or the fallback |
| PostProcess.RelinkItems | flora/pylib/rules/post_process.py:154-179 | a fruit type is found exactly when some element lower-cases to a table key, and then the rewritten list is not empty; RelinkItemsIsReference states the list itself |
| PostProcess.RelinkList | flora/pylib/rules/post_process.py:154-179 | the list loop computes the found flag and the rewritten list of RelinkItems |
| PostProcess.Resolve | flora/pylib/rules/post_process.py:158-179 | what one element stands for: its underlying part if it is a fruit type, else itself; no contract of its own |
| PostProcess.Mapped | flora/pylib/rules/post_process.py:158-179 | the list with every element resolved in place; no contract of its own |
| PostProcess.KeepsPosition | flora/pylib/rules/post_process.py:176-179 | a position survives when it is not a fruit type or its resolved part is not among the resolved elements before it; no contract of its own |
| PostProcess.Filtered | flora/pylib/rules/post_process.py:154-179 | the reference rewritten list: the resolved elements of the surviving positions, in position order; no contract of its own |
| PostProcess.RelinkItemsPrefix | flora/pylib/rules/post_process.py:158-179 | after the first `n` elements the loop holds the reference list for them, and its values are exactly the resolved values of those elements |
| PostProcess.RelinkItemsIsReference | flora/pylib/rules/post_process.py:154-179 | the rewritten list is the resolved list with a fruit type dropped exactly when its part occurs earlier, so position order is kept and an already present part is not added again |
| PostProcess.RelinkItemsExamples | flora/pylib/rules/post_process.py:154-179 | with no anchor near and `achene` mapped to `fruit`: `[achene, x]` gives `[fruit, x]`, `[fruit, achene]` gives `[fruit]`, `[achene, fruit]` gives `[fruit, fruit]` |
| PostProcess.NonFruitTypes | flora/pylib/rules/post_process.py:177-178 | the elements kept as they are hold no fruit type |
| PostProcess.RelinkItemsKeepsOthers | flora/pylib/rules/post_process.py:154-179 | apart from resolved parts, the rewritten list is exactly the non-fruit-type elements in their original order |
| PostProcess.RelinkItemsMembers | flora/pylib/rules/post_process.py:154-179 | every fruit type's resolved part is in the rewritten list, and every element of it is a resolved part or an original non-fruit-type element |
| PostProcess.RelinkItemsDedup | flora/pylib/rules/post_process.py:172-179 | a resolved part is added at most once: all its occurrences but one are original non-fruit-type elements, and a part that is no such element occurs at most once |
| PostProcess.Collapse | flora/pylib/rules/post_process.py:182 | a one-element list becomes that string, a longer one stays a list; it has no contract of its own, and RelinkedListPart states it |
| PostProcess.Relinked | flora/pylib/rules/post_process.py:120-182 | what the second pass does to one entity; it has no contract of its own, and the Relinked lemmas state its cases |
| PostProcess.PostProcessed | flora/pylib/rules/post_process.py:119-185 | the committed list: every entity re-linked, then the list reversed; PostProcessedIsReversal and PostProcessTwice state its properties |
| PostProcess.RelinkAll | flora/pylib/rules/post_process.py:120-182 | the second pass treats every entity on its own and keeps the list's length |
| PostProcess.Reversed | flora/pylib/rules/post_process.py:184 | position `i` of the reversal holds element `n - 1 - i` |
| PostProcess.RelinkedStringPart | flora/pylib/rules/post_process.py:127-152 | a string fruit-type subpart takes the part of the anchor strictly under 50, nearest, earliest among the nearest; with none it takes the table's part |
| PostProcess.ProximityExamples | flora/pylib/rules/post_process.py:139-152 | anchors 10 and 60 tokens away: the nearer one is used; anchors 60 and 80 away: the table's part is used |
| PostProcess.RelinkedListPart | flora/pylib/rules/post_process.py:154-182 | a list subpart holding a fruit type takes the rewritten list, which is not empty, collapsed to a string when it has one element |
| PostProcess.RelinkedUnchanged | flora/pylib/rules/post_process.py:120-129 | non-subparts, subparts without trait or part, non-fruit-type strings and lists with no fruit type are left as they are |
| PostProcess.RelinkedKeepsRest | flora/pylib/rules/post_process.py:120-182 | only a subpart's trait part ever changes; label, extent and trait type are kept |
| PostProcess.ReversedMultiset | flora/pylib/rules/post_process.py:184 | reversing keeps the same elements |
| PostProcess.ReversedTwice | flora/pylib/rules/post_process.py:184 | reversing twice restores the list |
| PostProcess.PostProcessedIsReversal | flora/pylib/rules/post_process.py:184-185 | the committed list has the input's length and the re-linked entities, position `k` holding the re-linked entity from `n - 1 - k` with its label and extent |
| PostProcess.RelinkedReversal | flora/pylib/rules/post_process.py:184-185 | the same, for any anchor list |
| PostProcess.UnderlyingSettled | flora/pylib/rules/post_process.py:132-152 | when table parts and anchor parts are not fruit types, neither is any chosen part |
| PostProcess.RelinkItemsSettled | flora/pylib/rules/post_process.py:154-179 | a rewritten list holds no fruit type when the targets are settled |
| PostProcess.RelinkedSettled | flora/pylib/rules/post_process.py:120-182 | re-linking an already re-linked entity changes nothing, whatever the anchors |
| PostProcess.FruitSeedWordsSettled | flora/pylib/rules/post_process.py:22-93 | with an all-`"fruit"` table that has no anchor word as a key, anchor parts and table parts are not fruit types |
| PostProcess.PostProcessTwice | flora/pylib/rules/post_process.py:119-185 | running the post-pass on its own output gives the entities re-linked once, in the original order |
| PostProcess.SecondPassSettles | flora/pylib/rules/post_process.py:119-182 | with settled targets, the second pass re-links nothing |
| PostProcess.SecondPassEntity | flora/pylib/rules/post_process.py:119-182 | each entity of the first pass's output is left as it is by the second |
| PostProcess.PostProcessTwiceWithTable | flora/pylib/rules/post_process.py:22-185 | the post-pass's own table meets those conditions, so running it twice equals re-linking once |
| PostProcess.Doc.constructor | flora/pylib/rules/post_process.py:18-19 | a document holds the given entity list |
| PostProcess.CollectAnchors | flora/pylib/rules/post_process.py:95-117 | the first-pass loop over the entity array collects exactly the anchors of the list, in order |
| PostProcess.AnchorsOfEntity | flora/pylib/rules/post_process.py:102-117 | the first-pass body for one non-name entity yields its anchor, if any, including the list scan with `break` |
| PostProcess.RelinkSubparts | flora/pylib/rules/post_process.py:119-182 | the second-pass loop rewrites the array in place into the re-linked list |
| PostProcess.ReverseInPlace | flora/pylib/rules/post_process.py:184 | the in-place reversal leaves the array reversed |
| PostProcess.FloraPostProcess | flora/pylib/rules/post_process.py:18-187 | the document's entities become the re-linked, reversed list, and the same document is returned |
| DispersalFormat.PropertyBag.constructor | flora/pylib/writers/dispersal_format.py:12 | a dictionary holds the given entries |
| DispersalFormat.ToStr | flora/pylib/writers/dispersal_format.py:19 | `str(value)`: `None` for `None`, the text of a string, the decimal rendering of an int, the given rendering otherwise |
| DispersalFormat.NameOf | flora/pylib/writers/dispersal_format.py:19-20 | `str(value).strip()`, a name with no whitespace at either end |
| DispersalFormat.IsDispersalKey | flora/pylib/writers/dispersal_format.py:17-18 | a key whose lower-case form contains `dispersalstructure` or `dispersal_structure` |
| DispersalFormat.DispersalKeys | flora/pylib/writers/dispersal_format.py:16-18 | the dictionary's keys whose lower-case form contains `dispersalstructure` or `dispersal_structure` |
| DispersalFormat.PresentAmong | flora/pylib/writers/dispersal_format.py:19-20 | the names collected from some keys are vocabulary names |
| DispersalFormat.Present | flora/pylib/writers/dispersal_format.py:12-24 | the present names are vocabulary names; every dispersal key with a non-`None` value whose stripped text is in the vocabulary adds its name; every name comes from such a key |
| DispersalFormat.Flags | flora/pylib/writers/dispersal_format.py:32-34 | one entry with value 1 per present name, and no other entry |
| DispersalFormat.Formatted | flora/pylib/writers/dispersal_format.py:12-35 | the formatted dictionary: dispersal keys removed, 1 under each present name; the lemmas below state its properties |
| DispersalFormat.CollectAndRemoveDispersalKeys | flora/pylib/writers/dispersal_format.py:12-24 | returns the present names and leaves the dictionary without its dispersal keys, every other entry kept |
| DispersalFormat.PopKeys | flora/pylib/writers/dispersal_format.py:22-23 | every listed key is removed, present or not, and nothing else changes |
| DispersalFormat.PresentAmongAdd | flora/pylib/writers/dispersal_format.py:16-20 | scanning one more entry adds at most its own trait name |
| DispersalFormat.WriteFlags | flora/pylib/writers/dispersal_format.py:32-34 | the vocabulary loop writes 1 under each present vocabulary name and nothing else |
| DispersalFormat.FormatDispersalInDynamicProperties | flora/pylib/writers/dispersal_format.py:27-35 | a non-dictionary comes back untouched; a dictionary comes back as itself, its dispersal keys removed and 1 written per present name |
| DispersalFormat.FormatDispersalInFlatDict | flora/pylib/writers/dispersal_format.py:38-48 | the same effect as the dynamic-properties variant |
| DispersalFormat.NoDispersalKeyRemains | flora/pylib/writers/dispersal_format.py:19-23 | a dispersal key is left only as a present vocabulary name with value 1 |
| DispersalFormat.NoDispersalKeyLeft | flora/pylib/writers/dispersal_format.py:12-35 | with no vocabulary name being a dispersal key, no dispersal key is left |
| DispersalFormat.TraitNames | flora/pylib/writers/dispersal_format.py:1-5 | a collected name has value 1; an uncollected one is never written and keeps its entry, or is removed if it is itself a dispersal key |
| DispersalFormat.OtherKeysKept | flora/pylib/writers/dispersal_format.py:16-34 | a key that is neither a dispersal key nor a present name keeps its entry or its absence |
| DispersalFormat.OnlyOnesWritten | flora/pylib/writers/dispersal_format.py:32-34 | every value other than 1 was there before under the same key, so no 0 is ever written |
| DispersalFormat.FormattedIdempotent | flora/pylib/writers/dispersal_format.py:12-35 | formatting twice is formatting once, when no vocabulary name is a dispersal key |
| DispersalFormat.CleanIsFixed | flora/pylib/writers/dispersal_format.py:12-35 | a dictionary without dispersal keys is its own formatting |
| DispersalFormat.LowerDispersalStructure | flora/pylib/writers/dispersal_format.py:17-18 | the camel-case spelling lower-cases to `dispersalstructure` |
| DispersalFormat.CamelCaseDispersalKey | flora/pylib/writers/dispersal_format.py:38-41 | any key containing `DispersalStructure`, such as a flat column name, is a dispersal key |

## Left out

- Framework plumbing is not modelled: spaCy pipe registration, the
  `Language.factory` and `registry.misc` entry points, and the `Compiler`
  patterns that decide which spans reach the rules. Spans are given as token
  sequences.
- Term-table loading from CSV files is not modelled. The `type` and `replace`
  columns are map parameters. The dispersal vocabulary is a sequence
  parameter, because its definition in `flora.pylib.const` is not part of this
  model.
- `from_ent`, `to_dwc` and the Darwin Core key builders are not modelled: they
  depend on classes outside this model. A trait is the record the rule builds.
- FruitTypeRule.FruitTypeMatch: `linkAs` is `None` before the marker is set,
  standing for whatever the generic trait constructor leaves there.
- The `logging.info` call of the post-pass is output only and is left out.
- `json_writer.py` (directory creation, file writes, `json.dump`) and
  `build_dispersal_block` are not part of this model.
- Dictionary keys are strings: the `AttributeError` that `key.lower()`
  raises on a non-string key is not modelled.
- Lower-casing is ASCII only; Unicode case mapping is not modelled. `str()` of
  values other than `None`, strings and ints is a given rendering (`Other`).
- Python dict insertion order is not modelled: the writer's dictionary is a
  map, so the position of newly written keys is not captured.
- Entities are values: the model does not capture two entities sharing one
  trait object, which would let a rewrite through one show up in the other.
- `hasattr` and `isinstance` checks are modelled by the `NoPart` and `None`
  cases: a part that is neither a string nor a list is left alone. List
  elements are strings; a non-string element, on which the source would fail,
  is not modelled.
- DispersalFormat.TraitNames: "1 exactly when collected" is stated one way
  only, because a name that already held 1 and was not collected still holds
  1.
- DispersalFormat.NoDispersalKeyRemains: "no dispersal key remains" holds
  outright only when no vocabulary name is itself a dispersal key, so the
  lemma states the exception, and NoDispersalKeyLeft states the plain claim
  under that condition.
- DispersalFormat.FormatDispersalInFlatDict: the flat variant repeats the
  body of the dynamic-properties variant, as the source does; their equal
  effect is their shared postcondition.
