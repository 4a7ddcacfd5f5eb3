/** The document-wide post-pass run after all trait rules (`flora_post_process`):
    it collects the fruit/seed part entities of a document as anchors,
    re-links every subpart whose part is a fruit type to the nearest anchor's
    part (or to the static fruit-type table when no anchor is near), and then
    reverses the document's entity list. */
module PostProcess {
  import opened Terms
  import opened Text
  import opened FruitTypeTable

  /** An anchor must be strictly closer than this many tokens to be used. */
  const MaxDist := 50

  /** The `part` attribute of a trait: a string, a list of strings, or
      anything else (no attribute, `None`, another type), which both passes
      leave alone. */
  datatype PartValue = NoPart | Str(s: string) | Items(xs: seq<string>)

  /** The trait behind an entity: its part and its `type` attribute
      (`None` when it has none). */
  datatype Trait = Trait(part: PartValue, partType: Option<string>)

  /** An entity of the document: its label, its token extent and its trait
      (`None` when it has no `_trait`). */
  datatype Entity = Entity(kind: string, start: int, end: int, record: Option<Trait>)

  /** A collected fruit/seed entity: its extent and its lower-cased part word. */
  datatype Anchor = Anchor(start: int, end: int, part: string)

  // ---------------------------------------------------------------------
  // First pass: anchors

  /** The position of the first list element at or after `from` that
      satisfies `p`. */
  function FirstWhere(xs: seq<string>, from: nat, p: string -> bool): (r: Option<nat>)
    requires from <= |xs|
    ensures r.Some? ==> from <= r.value < |xs| && p(xs[r.value])
    ensures r.Some? ==> forall j :: from <= j < r.value ==> !p(xs[j])
    ensures r.None? <==> forall j :: from <= j < |xs| ==> !p(xs[j])
    decreases |xs| - from
  {
    if from == |xs| then None
    else if p(xs[from]) then Some(from)
    else FirstWhere(xs, from + 1, p)
  }

  /** Whether a list element, lower-cased, is a fruit/seed word. */
  predicate IsFruitSeedSpelling(w: string) {
    IsFruitSeedWord(Lower(w))
  }

  /** The position of the first list element at or after `from` whose
      lower-case form is a fruit/seed word. */
  function FirstFruitSeedWord(xs: seq<string>, from: nat): (r: Option<nat>)
    requires from <= |xs|
    ensures r.Some? ==> from <= r.value < |xs| && IsFruitSeedWord(Lower(xs[r.value]))
    ensures r.Some? ==> forall j :: from <= j < r.value ==> !IsFruitSeedWord(Lower(xs[j]))
    ensures r.None? <==> forall j :: from <= j < |xs| ==> !IsFruitSeedWord(Lower(xs[j]))
  {
    FirstWhere(xs, from, IsFruitSeedSpelling)
  }

  predicate IsFruitPartEntity(e: Entity) {
    e.kind == "part" && e.record.Some? && e.record.value.partType == Some("fruit_part")
  }

  /** The anchor an entity contributes to the first pass, if any. The test
      on "name" mirrors the early `continue` of the source loop. */
  function AnchorOf(e: Entity): (r: Option<Anchor>)
    ensures r.Some? ==> IsFruitSeedWord(r.value.part)
  {
    if e.kind == "name" || !IsFruitPartEntity(e) then None
    else match e.record.value.part
      case Str(s) => if IsFruitSeedWord(Lower(s)) then Some(Anchor(e.start, e.end, Lower(s))) else None
      case Items(xs) =>
        (match FirstFruitSeedWord(xs, 0)
          case Some(i) => Some(Anchor(e.start, e.end, Lower(xs[i])))
          case None => None)
      case NoPart => None
  }

  /** Which entities give an anchor: only fruit-part entities that are not
      names, a string part when it lower-cases to an anchor word, and a list
      part through its first element that does. */
  lemma AnchorOfCases(e: Entity)
    ensures var r := AnchorOf(e);
      && (r.Some? ==> IsFruitPartEntity(e) && r.value.start == e.start && r.value.end == e.end)
      && (e.kind == "name" ==> r.None?)
      && (IsFruitPartEntity(e) && e.kind != "name" && e.record.value.part.Str? ==>
            var s := e.record.value.part.s;
            (r.Some? <==> IsFruitSeedWord(Lower(s))) && (r.Some? ==> r.value.part == Lower(s)))
      && (IsFruitPartEntity(e) && e.kind != "name" && e.record.value.part.Items? ==>
            var xs := e.record.value.part.xs;
            (r.Some? <==> FirstFruitSeedWord(xs, 0).Some?)
            && (r.Some? ==> r.value.part == Lower(xs[FirstFruitSeedWord(xs, 0).value])))
  {
  }

  function OptionToSeq(o: Option<Anchor>): seq<Anchor> {
    if o.Some? then [o.value] else []
  }

  /** The anchors of an entity list, in list order. */
  function Anchors(ents: seq<Entity>): (r: seq<Anchor>)
    ensures |r| <= |ents|
    ensures forall j :: 0 <= j < |r| ==> IsFruitSeedWord(r[j].part)
  {
    if |ents| == 0 then []
    else Anchors(ents[..|ents| - 1]) + OptionToSeq(AnchorOf(ents[|ents| - 1]))
  }

  /** Every anchor is the anchor of some entity of the list (and so, by
      AnchorOf, of a `part` entity of type `fruit_part`, one per entity). */
  lemma {:induction false} AnchorsFromEntities(ents: seq<Entity>, j: nat)
    requires j < |Anchors(ents)|
    ensures exists i :: 0 <= i < |ents| && AnchorOf(ents[i]) == Some(Anchors(ents)[j])
  {
    var n := |ents|;
    var init := ents[..n - 1];
    if j < |Anchors(init)| {
      AnchorsFromEntities(init, j);
      var i :| 0 <= i < |init| && AnchorOf(init[i]) == Some(Anchors(init)[j]);
      assert ents[i] == init[i];
    } else {
      assert AnchorOf(ents[n - 1]) == Some(Anchors(ents)[j]);
    }
  }

  /** The first pass is one scan in list order: the anchors of a
      concatenation are those of each half, one after the other. */
  lemma {:induction false} AnchorsAppend(a: seq<Entity>, b: seq<Entity>)
    ensures Anchors(a + b) == Anchors(a) + Anchors(b)
  {
    if |b| == 0 {
      assert a + b == a;
    } else {
      var init := b[..|b| - 1];
      var last := OptionToSeq(AnchorOf(b[|b| - 1]));
      assert Anchors(a + b) == Anchors(a + init) + last by {
        var c := a + b;
        assert c[..|c| - 1] == a + init;
        assert c[|c| - 1] == b[|b| - 1];
      }
      AnchorsAppend(a, init);
      assert Anchors(b) == Anchors(init) + last;
      AppendAssociative(Anchors(a), Anchors(init), last);
    }
  }

  /** Concatenation of anchor lists regroups freely. */
  lemma AppendAssociative(x: seq<Anchor>, y: seq<Anchor>, z: seq<Anchor>)
    ensures x + y + z == x + (y + z)
  {
  }

  /** The anchors of a prefix one entity longer. */
  lemma AnchorsPrefix(ents: seq<Entity>, i: nat)
    requires i < |ents|
    ensures Anchors(ents[..i + 1]) == Anchors(ents[..i]) + OptionToSeq(AnchorOf(ents[i]))
  {
    assert ents[..i + 1][..i] == ents[..i];
  }

  /** A single entity contributes exactly its own anchor, if any. */
  lemma AnchorsSingle(e: Entity)
    ensures Anchors([e]) == OptionToSeq(AnchorOf(e))
  {
    assert [e][..0] == [];
  }

  /** No anchor is missed: the anchor of entity `i` is in the result, right
      after the anchors of the entities before it. */
  lemma AnchorsComplete(ents: seq<Entity>, i: nat)
    requires i < |ents| && AnchorOf(ents[i]).Some?
    ensures |Anchors(ents[..i])| < |Anchors(ents)|
    ensures Anchors(ents)[|Anchors(ents[..i])|] == AnchorOf(ents[i]).value
  {
    assert ents == ents[..i] + [ents[i]] + ents[i + 1..];
    AnchorsAppend(ents[..i] + [ents[i]], ents[i + 1..]);
    AnchorsAppend(ents[..i], [ents[i]]);
    AnchorsSingle(ents[i]);
  }

  // ---------------------------------------------------------------------
  // Second pass: nearest anchor

  function Abs(x: int): nat {
    if x < 0 then -x else x
  }

  /** `min(abs(anchor.start - ent.end), abs(ent.start - anchor.end))`. */
  function Dist(a: Anchor, e: Entity): (r: nat)
    ensures r <= Abs(a.start - e.end) && r <= Abs(e.start - a.end)
    ensures r == Abs(a.start - e.end) || r == Abs(e.start - a.end)
  {
    var d1 := Abs(a.start - e.end);
    var d2 := Abs(e.start - a.end);
    if d1 <= d2 then d1 else d2
  }

  /** The anchor the argmin scan picks among the first `n` anchors: the
      nearest one strictly under MaxDist, the earliest among equally near
      ones; none if every one of them is MaxDist or more away. */
  function Closest(anchors: seq<Anchor>, n: nat, e: Entity): (r: Option<nat>)
    requires n <= |anchors|
    ensures r.Some? ==> r.value < n && Dist(anchors[r.value], e) < MaxDist
    ensures r.Some? ==> forall j :: 0 <= j < n ==> Dist(anchors[r.value], e) <= Dist(anchors[j], e)
    ensures r.Some? ==> forall j :: 0 <= j < r.value ==> Dist(anchors[r.value], e) < Dist(anchors[j], e)
    ensures r.None? <==> forall j :: 0 <= j < n ==> Dist(anchors[j], e) >= MaxDist
  {
    if n == 0 then None
    else
      var c := Closest(anchors, n - 1, e);
      var d := Dist(anchors[n - 1], e);
      if d < MaxDist && (c.None? || d < Dist(anchors[c.value], e)) then Some(n - 1) else c
  }

  /** The part a fruit type is re-linked to: that of an anchor strictly under
      MaxDist when there is one, otherwise the fallback. */
  function Underlying(fallback: string, anchors: seq<Anchor>, e: Entity): (r: string)
    ensures (forall j :: 0 <= j < |anchors| ==> Dist(anchors[j], e) >= MaxDist) ==> r == fallback
    ensures (exists j :: 0 <= j < |anchors| && Dist(anchors[j], e) < MaxDist) ==>
      exists k :: 0 <= k < |anchors| && Dist(anchors[k], e) < MaxDist && r == anchors[k].part
  {
    match Closest(anchors, |anchors|, e)
    case Some(k) => anchors[k].part
    case None => fallback
  }

  /** The inner argmin loop of the post-pass. `minDist == None` stands for
      the initial infinite distance. */
  method FindUnderlying(fallback: string, anchors: seq<Anchor>, ent: Entity) returns (underlying: string)
    ensures underlying == Underlying(fallback, anchors, ent)
  {
    underlying := fallback;
    var closest: Option<nat> := None;
    var minDist: Option<nat> := None;
    for i := 0 to |anchors|
      invariant closest == Closest(anchors, i, ent)
      invariant closest.Some? ==> closest.value < i
      invariant closest.Some? ==> minDist == Some(Dist(anchors[closest.value], ent))
      invariant closest.Some? ==> underlying == anchors[closest.value].part
      invariant closest.None? ==> minDist.None? && underlying == fallback
    {
      var a := anchors[i];
      var d1 := Abs(a.start - ent.end);
      var d2 := Abs(ent.start - a.end);
      var dist := if d1 <= d2 then d1 else d2;
      if (minDist.None? || dist < minDist.value) && dist < MaxDist {
        minDist := Some(dist);
        closest := Some(i);
        underlying := a.part;
      }
    }
  }

  /** The list loop of the second pass over `xs`: whether a fruit type was
      found, and the rewritten list (a fruit type becomes its underlying part,
      added only when not already there; other elements are kept). */
  function RelinkItems(xs: seq<string>, anchors: seq<Anchor>, e: Entity, table: map<string, string>)
    : (r: (bool, seq<string>))
    ensures r.0 <==> exists i :: 0 <= i < |xs| && Lower(xs[i]) in table
    ensures r.0 ==> |r.1| > 0
  {
    if |xs| == 0 then (false, [])
    else
      var init := xs[..|xs| - 1];
      var p := xs[|xs| - 1];
      var prev := RelinkItems(init, anchors, e, table);
      assert forall i :: 0 <= i < |init| ==> init[i] == xs[i];
      if Lower(p) in table then
        var u := Underlying(table[Lower(p)], anchors, e);
        (true, if u in prev.1 then prev.1 else prev.1 + [u])
      else
        (prev.0, prev.1 + [p])
  }

  /** The list loop of the second pass. */
  method RelinkList(xs: seq<string>, anchors: seq<Anchor>, ent: Entity, table: map<string, string>)
    returns (found: bool, updated: seq<string>)
    ensures (found, updated) == RelinkItems(xs, anchors, ent, table)
  {
    updated := [];
    found := false;
    for i := 0 to |xs|
      invariant (found, updated) == RelinkItems(xs[..i], anchors, ent, table)
    {
      var p := xs[i];
      var pLower := Lower(p);
      if pLower in table {
        found := true;
        var underlying := FindUnderlying(table[pLower], anchors, ent);
        if underlying !in updated {
          updated := updated + [underlying];
        }
      } else {
        updated := updated + [p];
      }
      assert xs[..i + 1][..i] == xs[..i];
    }
    assert xs[..|xs|] == xs;
  }

  /** What one list element stands for after re-linking: its underlying part
      if it is a fruit type, itself otherwise. */
  function Resolve(x: string, anchors: seq<Anchor>, e: Entity, table: map<string, string>): string {
    if Lower(x) in table then Underlying(table[Lower(x)], anchors, e) else x
  }

  /** The list with every element resolved in place. */
  function Mapped(xs: seq<string>, anchors: seq<Anchor>, e: Entity, table: map<string, string>): seq<string> {
    seq(|xs|, i requires 0 <= i < |xs| => Resolve(xs[i], anchors, e, table))
  }

  /** Whether position `i` survives: every non-fruit-type element does, and a
      fruit type does when its resolved part occurs nowhere before it in the
      resolved list. */
  predicate KeepsPosition(xs: seq<string>, anchors: seq<Anchor>, e: Entity, table: map<string, string>, i: nat)
    requires i < |xs|
  {
    var m := Mapped(xs, anchors, e, table);
    Lower(xs[i]) !in table || m[i] !in m[..i]
  }

  /** The resolved elements of the surviving positions among the first `n`,
      in position order. */
  function Filtered(xs: seq<string>, anchors: seq<Anchor>, e: Entity, table: map<string, string>, n: nat)
    : seq<string>
    requires n <= |xs|
  {
    if n == 0 then []
    else
      Filtered(xs, anchors, e, table, n - 1)
      + (if KeepsPosition(xs, anchors, e, table, n - 1) then [Mapped(xs, anchors, e, table)[n - 1]] else [])
  }

  /** The list loop on a prefix agrees with the reference, and the values it
      has placed so far are exactly the resolved values of that prefix. */
  lemma {:induction false} RelinkItemsPrefix(xs: seq<string>, anchors: seq<Anchor>, e: Entity,
                                             table: map<string, string>, n: nat)
    requires n <= |xs|
    ensures RelinkItems(xs[..n], anchors, e, table).1 == Filtered(xs, anchors, e, table, n)
    ensures forall x :: x in RelinkItems(xs[..n], anchors, e, table).1 <==> x in Mapped(xs, anchors, e, table)[..n]
  {
    if n > 0 {
      RelinkItemsPrefix(xs, anchors, e, table, n - 1);
      assert xs[..n][..n - 1] == xs[..n - 1];
      var m := Mapped(xs, anchors, e, table);
      assert m[..n] == m[..n - 1] + [m[n - 1]];
    }
  }

  /** The rewritten list is the reference: the resolved list with a fruit
      type's position dropped exactly when its part already occurs earlier
      (as a kept element or as another fruit type's part), so order is
      preserved and a part already present is never added again. */
  lemma RelinkItemsIsReference(xs: seq<string>, anchors: seq<Anchor>, e: Entity, table: map<string, string>)
    ensures RelinkItems(xs, anchors, e, table).1 == Filtered(xs, anchors, e, table, |xs|)
    ensures forall x :: x in RelinkItems(xs, anchors, e, table).1 <==> x in Mapped(xs, anchors, e, table)
  {
    RelinkItemsPrefix(xs, anchors, e, table, |xs|);
    assert xs[..|xs|] == xs;
    assert Mapped(xs, anchors, e, table)[..|xs|] == Mapped(xs, anchors, e, table);
  }

  /** Three lists with no anchor near: a fruit type keeps its position, a
      fruit type whose part is already there is dropped, and an element equal
      to an earlier resolved part is still kept. */
  lemma RelinkItemsExamples(e: Entity, table: map<string, string>)
    requires "achene" in table && table["achene"] == "fruit"
    requires "fruit" !in table && "x" !in table
    ensures RelinkItems(["achene", "x"], [], e, table) == (true, ["fruit", "x"])
    ensures RelinkItems(["fruit", "achene"], [], e, table) == (true, ["fruit"])
    ensures RelinkItems(["achene", "fruit"], [], e, table) == (true, ["fruit", "fruit"])
  {
    LowerOfLowerCase("achene");
    LowerOfLowerCase("fruit");
    LowerOfLowerCase("x");
    var none: seq<Anchor> := [];
    assert Underlying("fruit", none, e) == "fruit";
    assert ["achene"][..0] == [] && ["fruit"][..0] == [];
    assert [] + ["fruit"] == ["fruit"];
    assert ["fruit"] + ["x"] == ["fruit", "x"] && ["fruit"] + ["fruit"] == ["fruit", "fruit"];
    assert RelinkItems(["achene"], none, e, table) == (true, ["fruit"]);
    assert RelinkItems(["fruit"], none, e, table) == (false, ["fruit"]);
    assert ["achene", "x"][..1] == ["achene"];
    assert ["fruit", "achene"][..1] == ["fruit"];
    assert ["achene", "fruit"][..1] == ["achene"];
  }

  /** The elements of `xs` that are not fruit types, in order. */
  function NonFruitTypes(xs: seq<string>, table: map<string, string>): (r: seq<string>)
    ensures forall i :: 0 <= i < |r| ==> Lower(r[i]) !in table
  {
    if |xs| == 0 then []
    else
      var init := NonFruitTypes(xs[..|xs| - 1], table);
      if Lower(xs[|xs| - 1]) in table then init else init + [xs[|xs| - 1]]
  }

  /** `xs` without the elements of `s`, in order. */
  function Without(xs: seq<string>, s: set<string>): (r: seq<string>)
    ensures forall i :: 0 <= i < |r| ==> r[i] !in s
  {
    if |xs| == 0 then []
    else
      var init := Without(xs[..|xs| - 1], s);
      if xs[|xs| - 1] in s then init else init + [xs[|xs| - 1]]
  }

  /** Once the resolved parts are set aside, the rewritten list is exactly the
      input's non-fruit-type elements in their original order. */
  lemma {:induction false} RelinkItemsKeepsOthers(xs: seq<string>, anchors: seq<Anchor>, e: Entity,
                                                  table: map<string, string>, resolved: set<string>)
    requires forall i :: 0 <= i < |xs| && Lower(xs[i]) in table ==>
      Underlying(table[Lower(xs[i])], anchors, e) in resolved
    ensures Without(RelinkItems(xs, anchors, e, table).1, resolved) == Without(NonFruitTypes(xs, table), resolved)
  {
    if |xs| > 0 {
      var n := |xs|;
      var init := xs[..n - 1];
      var p := xs[n - 1];
      RelinkItemsKeepsOthers(init, anchors, e, table, resolved);
      var prev := RelinkItems(init, anchors, e, table).1;
      var nf := NonFruitTypes(init, table);
      if Lower(p) in table {
        var u := Underlying(table[Lower(p)], anchors, e);
        if u !in prev {
          assert (prev + [u])[..|prev|] == prev;
        }
      } else {
        assert (prev + [p])[..|prev|] == prev;
        assert (nf + [p])[..|nf|] == nf;
      }
    }
  }

  /** Every fruit type's resolved part occurs in the rewritten list, and every
      element of it is a resolved part or an original non-fruit-type element. */
  lemma {:induction false} RelinkItemsMembers(xs: seq<string>, anchors: seq<Anchor>, e: Entity,
                                              table: map<string, string>)
    ensures var r := RelinkItems(xs, anchors, e, table).1;
      && (forall i :: 0 <= i < |xs| && Lower(xs[i]) in table ==> Underlying(table[Lower(xs[i])], anchors, e) in r)
      && (forall x :: x in r ==>
            (x in NonFruitTypes(xs, table) ||
             exists i :: 0 <= i < |xs| && Lower(xs[i]) in table && x == Underlying(table[Lower(xs[i])], anchors, e)))
  {
    if |xs| > 0 {
      var n := |xs|;
      var init := xs[..n - 1];
      RelinkItemsMembers(init, anchors, e, table);
      var r := RelinkItems(xs, anchors, e, table).1;
      var prev := RelinkItems(init, anchors, e, table).1;
      assert forall x :: x in prev ==> x in r;
      assert forall x :: x in NonFruitTypes(init, table) ==> x in NonFruitTypes(xs, table);
      forall x | x in r
        ensures x in NonFruitTypes(xs, table) ||
          exists i :: 0 <= i < |xs| && Lower(xs[i]) in table && x == Underlying(table[Lower(xs[i])], anchors, e)
      {
        if x in prev {
          if !(x in NonFruitTypes(init, table)) {
            var i :| 0 <= i < |init| && Lower(init[i]) in table && x == Underlying(table[Lower(init[i])], anchors, e);
            assert xs[i] == init[i];
          }
        } else if Lower(xs[n - 1]) in table {
          assert x == Underlying(table[Lower(xs[n - 1])], anchors, e);
        }
      }
    }
  }

  /** A resolved part is added at most once: every occurrence of `u` in the
      rewritten list but one is an original non-fruit-type element, so a part
      that is not also such an element occurs at most once. */
  lemma {:induction false} RelinkItemsDedup(xs: seq<string>, anchors: seq<Anchor>, e: Entity,
                                            table: map<string, string>, u: string)
    ensures multiset(RelinkItems(xs, anchors, e, table).1)[u] <= multiset(NonFruitTypes(xs, table))[u] + 1
    ensures u !in NonFruitTypes(xs, table) ==> multiset(RelinkItems(xs, anchors, e, table).1)[u] <= 1
  {
    if |xs| > 0 {
      var init := xs[..|xs| - 1];
      var p := xs[|xs| - 1];
      RelinkItemsDedup(init, anchors, e, table, u);
      var prev := RelinkItems(init, anchors, e, table).1;
      var nf := NonFruitTypes(init, table);
      if Lower(p) in table {
        var v := Underlying(table[Lower(p)], anchors, e);
        if v !in prev {
          assert multiset(prev + [v]) == multiset(prev) + multiset{v};
          if v == u {
            assert multiset(prev)[u] == 0;
          }
        }
      } else {
        assert multiset(prev + [p]) == multiset(prev) + multiset{p};
        assert multiset(nf + [p]) == multiset(nf) + multiset{p};
      }
    }
  }

  // ---------------------------------------------------------------------
  // Second pass: whole entities

  /** A rewritten list collapses to a scalar when it has a single element. */
  function Collapse(updated: seq<string>): PartValue
    requires |updated| > 0
  {
    if |updated| > 1 then Items(updated) else Str(updated[0])
  }

  /** What the second pass does to one entity. */
  function Relinked(e: Entity, anchors: seq<Anchor>, table: map<string, string>): Entity {
    if e.kind == "subpart" && e.record.Some? then
      var t := e.record.value;
      match t.part
      case Str(s) =>
        if Lower(s) in table then e.(record := Some(t.(part := Str(Underlying(table[Lower(s)], anchors, e)))))
        else e
      case Items(xs) =>
        var r := RelinkItems(xs, anchors, e, table);
        if r.0 then e.(record := Some(t.(part := Collapse(r.1)))) else e
      case NoPart => e
    else e
  }

  function RelinkAll(ents: seq<Entity>, anchors: seq<Anchor>, table: map<string, string>): (r: seq<Entity>)
    ensures |r| == |ents|
    ensures forall i :: 0 <= i < |ents| ==> r[i] == Relinked(ents[i], anchors, table)
  {
    seq(|ents|, i requires 0 <= i < |ents| => Relinked(ents[i], anchors, table))
  }

  function Reversed<T>(s: seq<T>): (r: seq<T>)
    ensures |r| == |s|
    ensures forall i :: 0 <= i < |s| ==> r[i] == s[|s| - 1 - i]
  {
    seq(|s|, i requires 0 <= i < |s| => s[|s| - 1 - i])
  }

  /** The entity list the post-pass commits to the document. */
  function PostProcessed(ents: seq<Entity>, table: map<string, string>): seq<Entity> {
    Reversed(RelinkAll(ents, Anchors(ents), table))
  }

  /** A string subpart naming a fruit type takes the part of the anchor that
      is strictly under MaxDist, nearest, and earliest among the nearest;
      with no such anchor it takes the table's part. */
  lemma RelinkedStringPart(e: Entity, anchors: seq<Anchor>, table: map<string, string>)
    requires e.kind == "subpart" && e.record.Some? && e.record.value.part.Str?
    requires Lower(e.record.value.part.s) in table
    ensures var p := Relinked(e, anchors, table).record.value.part;
      && p.Str?
      && ((forall j :: 0 <= j < |anchors| ==> Dist(anchors[j], e) >= MaxDist) ==>
            p.s == table[Lower(e.record.value.part.s)])
      && (forall k :: 0 <= k < |anchors| && Dist(anchors[k], e) < MaxDist
            && (forall j :: 0 <= j < k ==> Dist(anchors[k], e) < Dist(anchors[j], e))
            && (forall j :: k < j < |anchors| ==> Dist(anchors[k], e) <= Dist(anchors[j], e))
            ==> p.s == anchors[k].part)
  {
    var c := Closest(anchors, |anchors|, e);
    forall k | 0 <= k < |anchors| && Dist(anchors[k], e) < MaxDist
        && (forall j :: 0 <= j < k ==> Dist(anchors[k], e) < Dist(anchors[j], e))
        && (forall j :: k < j < |anchors| ==> Dist(anchors[k], e) <= Dist(anchors[j], e))
      ensures c == Some(k)
    {
      assert c.Some?;
    }
  }

  /** A subpart at tokens 100..101 with a "seed" anchor 10 tokens away and a
      "fruit" anchor 60 tokens away takes "seed"; with anchors only 60 and 80
      tokens away it falls back to the table's part. */
  lemma ProximityExamples(table: map<string, string>)
    requires "achene" in table
    ensures var e := Entity("subpart", 100, 101, Some(Trait(Str("achene"), None)));
      && Relinked(e, [Anchor(111, 112, "seed"), Anchor(161, 162, "fruit")], table).record.value.part == Str("seed")
      && Relinked(e, [Anchor(161, 162, "seed"), Anchor(181, 182, "fruit")], table).record.value.part == Str(table["achene"])
  {
    var e := Entity("subpart", 100, 101, Some(Trait(Str("achene"), None)));
    assert Lower("achene") == "achene" by {
      LowerOfLowerCase("achene");
    }
    var near := [Anchor(111, 112, "seed"), Anchor(161, 162, "fruit")];
    assert Dist(near[0], e) == 10 && Dist(near[1], e) == 60;
    var far := [Anchor(161, 162, "seed"), Anchor(181, 182, "fruit")];
    assert Dist(far[0], e) == 60 && Dist(far[1], e) == 80;
  }

  /** A list subpart holding a fruit type takes the rewritten list, collapsed
      to a string when it has a single element. */
  lemma RelinkedListPart(e: Entity, anchors: seq<Anchor>, table: map<string, string>)
    requires e.kind == "subpart" && e.record.Some? && e.record.value.part.Items?
    requires exists i :: 0 <= i < |e.record.value.part.xs| && Lower(e.record.value.part.xs[i]) in table
    ensures var r := RelinkItems(e.record.value.part.xs, anchors, e, table).1;
      var p := Relinked(e, anchors, table).record.value.part;
      && |r| > 0
      && (|r| == 1 ==> p == Str(r[0]))
      && (|r| > 1 ==> p == Items(r))
  {
  }

  /** What the second pass leaves alone: every entity that is not a subpart,
      a subpart without trait or part, a string part that is not a fruit type,
      and a list part with no fruit type in it. */
  lemma RelinkedUnchanged(e: Entity, anchors: seq<Anchor>, table: map<string, string>)
    requires || e.kind != "subpart" || e.record.None? || e.record.value.part.NoPart?
             || (e.record.value.part.Str? && Lower(e.record.value.part.s) !in table)
             || (e.record.value.part.Items? &&
                   forall i :: 0 <= i < |e.record.value.part.xs| ==> Lower(e.record.value.part.xs[i]) !in table)
    ensures Relinked(e, anchors, table) == e
  {
  }

  /** The second pass only ever changes the part of a subpart's trait. */
  lemma RelinkedKeepsRest(e: Entity, anchors: seq<Anchor>, table: map<string, string>)
    ensures var r := Relinked(e, anchors, table);
      && r.kind == e.kind && r.start == e.start && r.end == e.end
      && r.record.Some? == e.record.Some?
      && (r.record.Some? ==> r.record.value.partType == e.record.value.partType)
      && (r != e ==> e.kind == "subpart")
  {
  }

  lemma {:induction false} ReversedMultiset<T>(s: seq<T>)
    ensures multiset(Reversed(s)) == multiset(s)
  {
    if |s| > 0 {
      ReversedMultiset(s[1..]);
      assert Reversed(s) == Reversed(s[1..]) + [s[0]];
      assert s == [s[0]] + s[1..];
    }
  }

  lemma ReversedTwice<T>(s: seq<T>)
    ensures Reversed(Reversed(s)) == s
  {
  }

  /** The committed list is the re-linked list reversed: the same length,
      the same entities (as a multiset), position `k` holding the entity that
      was at `n - 1 - k`. */
  lemma PostProcessedIsReversal(ents: seq<Entity>, table: map<string, string>)
    ensures var r := PostProcessed(ents, table);
      && |r| == |ents|
      && multiset(r) == multiset(RelinkAll(ents, Anchors(ents), table))
      && forall k :: 0 <= k < |ents| ==>
           r[k] == Relinked(ents[|ents| - 1 - k], Anchors(ents), table)
           && r[k].kind == ents[|ents| - 1 - k].kind
           && r[k].start == ents[|ents| - 1 - k].start
           && r[k].end == ents[|ents| - 1 - k].end
  {
    RelinkedReversal(ents, Anchors(ents), table);
  }

  /** The same, for any anchor list. */
  lemma RelinkedReversal(ents: seq<Entity>, anchors: seq<Anchor>, table: map<string, string>)
    ensures var r := Reversed(RelinkAll(ents, anchors, table));
      && |r| == |ents|
      && multiset(r) == multiset(RelinkAll(ents, anchors, table))
      && forall k :: 0 <= k < |ents| ==>
           r[k] == Relinked(ents[|ents| - 1 - k], anchors, table)
           && r[k].kind == ents[|ents| - 1 - k].kind
           && r[k].start == ents[|ents| - 1 - k].start
           && r[k].end == ents[|ents| - 1 - k].end
  {
    var r := Reversed(RelinkAll(ents, anchors, table));
    ReversedMultiset(RelinkAll(ents, anchors, table));
    forall k | 0 <= k < |ents|
      ensures r[k] == Relinked(ents[|ents| - 1 - k], anchors, table)
      ensures r[k].kind == ents[|ents| - 1 - k].kind
      ensures r[k].start == ents[|ents| - 1 - k].start && r[k].end == ents[|ents| - 1 - k].end
    {
      RelinkedKeepsRest(ents[|ents| - 1 - k], anchors, table);
    }
  }


  // ---------------------------------------------------------------------
  // Running the pass twice

  /** A part value no further re-linking touches: no element names a fruit type. */
  predicate Settled(v: string, table: map<string, string>) {
    Lower(v) !in table
  }

  /** The table parts and the anchor parts are not themselves fruit types. */
  predicate SettledTargets(anchors: seq<Anchor>, table: map<string, string>) {
    && (forall k | k in table :: Settled(table[k], table))
    && (forall j :: 0 <= j < |anchors| ==> Settled(anchors[j].part, table))
  }

  lemma UnderlyingSettled(fallback: string, anchors: seq<Anchor>, e: Entity, table: map<string, string>)
    requires SettledTargets(anchors, table)
    requires fallback in table.Values
    ensures Settled(Underlying(fallback, anchors, e), table)
  {
  }

  lemma {:induction false} RelinkItemsSettled(xs: seq<string>, anchors: seq<Anchor>, e: Entity,
                                              table: map<string, string>)
    requires SettledTargets(anchors, table)
    ensures forall i :: 0 <= i < |RelinkItems(xs, anchors, e, table).1| ==>
      Settled(RelinkItems(xs, anchors, e, table).1[i], table)
  {
    if |xs| > 0 {
      var init := xs[..|xs| - 1];
      var p := xs[|xs| - 1];
      RelinkItemsSettled(init, anchors, e, table);
      if Lower(p) in table {
        UnderlyingSettled(table[Lower(p)], anchors, e, table);
      }
    }
  }

  /** Re-linking an already re-linked entity, against any anchors, changes
      nothing. */
  lemma RelinkedSettled(e: Entity, anchors: seq<Anchor>, others: seq<Anchor>, table: map<string, string>)
    requires SettledTargets(anchors, table)
    ensures Relinked(Relinked(e, anchors, table), others, table) == Relinked(e, anchors, table)
  {
    if e.kind == "subpart" && e.record.Some? {
      match e.record.value.part
      case Str(s) =>
        if Lower(s) in table {
          UnderlyingSettled(table[Lower(s)], anchors, e, table);
        }
      case Items(xs) =>
        RelinkItemsSettled(xs, anchors, e, table);
      case NoPart =>
    }
  }

  /** What the post-pass needs of its table: everything maps to "fruit" and
      no anchor word is a key. */
  predicate FruitTable(table: map<string, string>) {
    && (forall k | k in table :: table[k] == "fruit")
    && (forall w | IsFruitSeedWord(w) :: w !in table)
  }

  /** The anchor words and the table's part are not fruit types. */
  lemma FruitSeedWordsSettled(anchors: seq<Anchor>, table: map<string, string>)
    requires FruitTable(table)
    requires forall j :: 0 <= j < |anchors| ==> IsFruitSeedWord(anchors[j].part)
    ensures SettledTargets(anchors, table)
  {
    assert Lower("fruit") == "fruit" by {
      LowerOfLowerCase("fruit");
    }
    assert Lower("seed") == "seed" && Lower("fruits") == "fruits" && Lower("seeds") == "seeds" by {
      LowerOfLowerCase("seed");
      LowerOfLowerCase("fruits");
      LowerOfLowerCase("seeds");
    }
  }

  /** Running the post-pass on its own output re-links nothing, and the
      second reversal restores the order: the result is the re-linked list in
      the original order. */
  lemma PostProcessTwice(ents: seq<Entity>, table: map<string, string>)
    requires FruitTable(table)
    ensures PostProcessed(PostProcessed(ents, table), table) == RelinkAll(ents, Anchors(ents), table)
  {
    var anchors := Anchors(ents);
    assert SettledTargets(anchors, table) by {
      FruitSeedWordsSettled(anchors, table);
    }
    SecondPassSettles(ents, anchors, table);
    ReversedTwice(RelinkAll(ents, anchors, table));
  }

  /** With settled targets, the second pass re-links nothing. */
  lemma SecondPassSettles(ents: seq<Entity>, anchors: seq<Anchor>, table: map<string, string>)
    requires SettledTargets(anchors, table)
    ensures var p1 := Reversed(RelinkAll(ents, anchors, table));
      RelinkAll(p1, Anchors(p1), table) == p1
  {
    var p1 := Reversed(RelinkAll(ents, anchors, table));
    forall k | 0 <= k < |p1| ensures RelinkAll(p1, Anchors(p1), table)[k] == p1[k] {
      SecondPassEntity(ents, anchors, table, k);
    }
  }

  /** One entity of the first pass's output is left as it is by the second. */
  lemma SecondPassEntity(ents: seq<Entity>, anchors: seq<Anchor>, table: map<string, string>, k: nat)
    requires SettledTargets(anchors, table)
    requires k < |ents|
    ensures var p1 := Reversed(RelinkAll(ents, anchors, table));
      RelinkAll(p1, Anchors(p1), table)[k] == p1[k]
  {
    var p1 := Reversed(RelinkAll(ents, anchors, table));
    var e := ents[|ents| - 1 - k];
    assert p1[k] == Relinked(e, anchors, table);
    RelinkedSettled(e, anchors, Anchors(p1), table);
  }

  /** The post-pass's own table meets FruitTable, so running the pass twice
      on a document leaves it re-linked once, in its original order. */
  lemma PostProcessTwiceWithTable(ents: seq<Entity>)
    ensures var table := FruitTypeToPart();
      PostProcessed(PostProcessed(ents, table), table) == RelinkAll(ents, Anchors(ents), table)
  {
    var table := FruitTypeToPart();
    assert FruitTable(table);
    PostProcessTwice(ents, table);
  }

  // ---------------------------------------------------------------------
  // The pass itself

  /** The document whose entity list the pass rewrites. */
  class Doc {
    var ents: seq<Entity>

    constructor (ents: seq<Entity>)
      ensures this.ents == ents
    {
      this.ents := ents;
    }
  }

  /** The first pass: collect the fruit/seed part entities, in list order. */
  method CollectAnchors(entities: array<Entity>) returns (anchors: seq<Anchor>)
    ensures anchors == Anchors(entities[..])
  {
    anchors := [];
    for i := 0 to entities.Length
      invariant anchors == Anchors(entities[..i])
    {
      var ent := entities[i];
      AnchorsPrefix(entities[..], i);
      assert entities[..][..i] == entities[..i] && entities[..][..i + 1] == entities[..i + 1];
      if ent.kind == "name" {
        continue;
      }
      var found := AnchorsOfEntity(ent);
      anchors := anchors + found;
    }
    assert entities[..entities.Length] == entities[..];
  }

  /** The body of the first pass for one entity that is not a name: the
      anchor a fruit part contributes, as a list of at most one. */
  method AnchorsOfEntity(ent: Entity) returns (found: seq<Anchor>)
    requires ent.kind != "name"
    ensures found == OptionToSeq(AnchorOf(ent))
  {
    found := [];
    if ent.kind == "part" && ent.record.Some? {
      var t := ent.record.value;
      if t.partType == Some("fruit_part") {
        match t.part {
          case Str(s) =>
            if IsFruitSeedWord(Lower(s)) {
              found := [Anchor(ent.start, ent.end, Lower(s))];
            }
          case Items(xs) =>
            var j := 0;
            while j < |xs|
              invariant 0 <= j <= |xs|
              invariant found == []
              invariant FirstFruitSeedWord(xs, j) == FirstFruitSeedWord(xs, 0)
            {
              if IsFruitSeedWord(Lower(xs[j])) {
                found := [Anchor(ent.start, ent.end, Lower(xs[j]))];
                break;
              }
              j := j + 1;
            }
          case NoPart =>
        }
      }
    }
  }


  /** The second pass: rewrite, in place, the part of every subpart that
      names a fruit type. */
  method RelinkSubparts(entities: array<Entity>, anchors: seq<Anchor>, table: map<string, string>)
    modifies entities
    ensures entities[..] == RelinkAll(old(entities[..]), anchors, table)
  {
    for i := 0 to entities.Length
      invariant forall j :: 0 <= j < i ==> entities[j] == Relinked(old(entities[j]), anchors, table)
      invariant forall j :: i <= j < entities.Length ==> entities[j] == old(entities[j])
    {
      var ent := entities[i];
      if ent.kind == "subpart" && ent.record.Some? {
        var t := ent.record.value;
        match t.part {
          case Str(s) =>
            var partLower := Lower(s);
            if partLower in table {
              var underlying := FindUnderlying(table[partLower], anchors, ent);
              entities[i] := ent.(record := Some(t.(part := Str(underlying))));
            }
          case Items(xs) =>
            var found, updated := RelinkList(xs, anchors, ent, table);
            if found {
              entities[i] := ent.(record := Some(t.(part := if |updated| > 1 then Items(updated) else Str(updated[0]))));
            }
          case NoPart =>
        }
      }
    }
  }

  /** `entities.reverse()`. */
  method ReverseInPlace(entities: array<Entity>)
    modifies entities
    ensures entities[..] == Reversed(old(entities[..]))
  {
    var n := entities.Length;
    for i := 0 to n / 2
      invariant forall k :: 0 <= k < i ==> entities[k] == old(entities[n - 1 - k]) && entities[n - 1 - k] == old(entities[k])
      invariant forall k :: i <= k < n - i ==> entities[k] == old(entities[k])
    {
      entities[i], entities[n - 1 - i] := entities[n - 1 - i], entities[i];
    }
  }

  /** `FloraPostProcess.__call__`: both passes over a copy of the document's
      entities, the reversal, and the copy committed back to the document. */
  method FloraPostProcess(doc: Doc) returns (r: Doc)
    modifies doc
    ensures r == doc
    ensures doc.ents == PostProcessed(old(doc.ents), FruitTypeToPart())
  {
    var src := doc.ents;
    var entities := new Entity[|src|](i requires 0 <= i < |src| => src[i]);
    assert entities[..] == src;
    var table := FruitTypeToPart();
    var anchors := CollectAnchors(entities);
    RelinkSubparts(entities, anchors, table);
    ReverseInPlace(entities);
    doc.ents := entities[..];
    r := doc;
  }
}
