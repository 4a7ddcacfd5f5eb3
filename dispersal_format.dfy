/** The dispersal writer: before a record is written out, every
    `...DispersalStructure` property is removed, and each trait name of the
    dispersal vocabulary that one of those properties held is written back as
    its own property with the value 1. Absence and unknown traits are simply
    not written. The vocabulary is a parameter. */
module DispersalFormat {
  import opened Text

  /** A property value as far as the writer looks at it: `None`, a string, an
      integer, or anything else, represented by what `str` renders for it. */
  datatype Value = Null | Str(s: string) | Int(n: int) | Other(rendered: string)

  /** `str(value)` for a value that is not `None`. */
  function ToStr(v: Value): string {
    match v
    case Null => "None"
    case Str(s) => s
    case Int(n) => IntToString(n)
    case Other(rendered) => rendered
  }

  /** A dictionary the writer changes in place. */
  class PropertyBag {
    var items: map<string, Value>

    constructor (items: map<string, Value>)
      ensures this.items == items
    {
      this.items := items;
    }
  }

  /** What the writer may be handed: a dictionary, or any other value. */
  datatype Json = Dict(bag: PropertyBag) | NonDict(v: Value)

  /** A property key that names a dispersal structure, in any letter case. */
  predicate IsDispersalKey(k: string) {
    Contains(Lower(k), "dispersalstructure") || Contains(Lower(k), "dispersal_structure")
  }

  /** The trait name a property value stands for, if it is in the vocabulary. */
  predicate PresentValue(v: Value, vocab: seq<string>) {
    v != Null && NameOf(v) in vocab
  }

  /** `str(value).strip()`: the trait name a value would stand for, with no
      whitespace at either end (StripShape says which piece it is). */
  function NameOf(v: Value): (r: string)
    ensures r == [] || (!IsSpace(r[0]) && !IsSpace(r[|r| - 1]))
  {
    StripShape(ToStr(v));
    Strip(ToStr(v))
  }

  /** The entry under `k` is a dispersal key whose value names a trait. */
  predicate Collects(m: map<string, Value>, k: string, vocab: seq<string>) {
    k in m && IsDispersalKey(k) && PresentValue(m[k], vocab)
  }

  /** The dispersal keys of a dictionary. */
  function DispersalKeys(m: map<string, Value>): (r: set<string>)
    ensures forall k :: k in r <==> k in m && IsDispersalKey(k)
  {
    set k | k in m && IsDispersalKey(k)
  }

  /** The trait names held by the dispersal keys among `keys`. */
  function PresentAmong(m: map<string, Value>, keys: set<string>, vocab: seq<string>): (r: set<string>)
    ensures forall n | n in r :: n in vocab
  {
    set k | k in keys && Collects(m, k, vocab) :: NameOf(m[k])
  }

  /** The trait names a dictionary's dispersal keys hold: every name comes
      from the vocabulary, and a name is present exactly when some dispersal
      key holds it (a `None` value never does). */
  function Present(m: map<string, Value>, vocab: seq<string>): (r: set<string>)
    ensures forall n | n in r :: n in vocab
    ensures forall k | Collects(m, k, vocab) :: NameOf(m[k]) in r
    ensures forall n | n in r :: exists k | k in m && IsDispersalKey(k) :: m[k] != Null && NameOf(m[k]) == n
  {
    PresentAmong(m, m.Keys, vocab)
  }

  /** The 1-valued properties, one per present trait name. */
  function Flags(names: set<string>): (r: map<string, Value>)
    ensures r.Keys == names
    ensures forall n | n in r :: r[n] == Int(1)
  {
    map n | n in names :: Int(1)
  }

  /** The dictionary after formatting: its dispersal keys removed, and 1 set
      for every trait name they held. */
  function Formatted(m: map<string, Value>, vocab: seq<string>): map<string, Value> {
    (m - DispersalKeys(m)) + Flags(Present(m, vocab))
  }

  /** `_collect_and_remove_dispersal_keys`: one pass over a snapshot of the
      entries collects the present trait names and the keys to remove, and a
      second pass pops those keys. */
  method CollectAndRemoveDispersalKeys(d: PropertyBag, vocab: seq<string>) returns (present: set<string>)
    modifies d
    ensures present == Present(old(d.items), vocab)
    ensures d.items == old(d.items) - DispersalKeys(old(d.items))
  {
    present := {};
    var keysToRemove: seq<string> := [];
    var snapshot := d.items;
    var todo := snapshot.Keys;
    ghost var done: set<string> := {};
    while todo != {}
      invariant todo !! done && todo + done == snapshot.Keys
      invariant d.items == snapshot
      invariant present == PresentAmong(snapshot, done, vocab)
      invariant forall k :: k in keysToRemove <==> k in done && IsDispersalKey(k)
      decreases |todo|
    {
      var key :| key in todo;
      var value := snapshot[key];
      assert present + (if Collects(snapshot, key, vocab) then {NameOf(value)} else {})
          == PresentAmong(snapshot, done + {key}, vocab) by {
        PresentAmongAdd(snapshot, done, key, vocab);
      }
      if IsDispersalKey(key) {
        if value != Null && Strip(ToStr(value)) in vocab {
          present := present + {NameOf(value)};
        }
        keysToRemove := keysToRemove + [key];
      }
      todo := todo - {key};
      done := done + {key};
    }
    PopKeys(d, keysToRemove);
    assert (set k | k in keysToRemove) == DispersalKeys(snapshot);
  }

  /** `for k in keys: d.pop(k, None)`: every listed key is removed, present
      or not. */
  method PopKeys(d: PropertyBag, keys: seq<string>)
    modifies d
    ensures d.items == old(d.items) - (set k | k in keys)
  {
    ghost var base := d.items;
    ghost var removed: set<string> := {};
    for i := 0 to |keys|
      invariant d.items == base - removed
      invariant forall k :: k in removed <==> k in keys[..i]
    {
      assert keys[..i + 1] == keys[..i] + [keys[i]];
      d.items := d.items - {keys[i]};
      removed := removed + {keys[i]};
    }
    assert removed == set k | k in keys by {
      assert keys[..|keys|] == keys;
    }
  }

  /** Scanning one more key adds at most its own trait name. */
  lemma PresentAmongAdd(m: map<string, Value>, keys: set<string>, key: string, vocab: seq<string>)
    requires key in m && key !in keys
    ensures PresentAmong(m, keys + {key}, vocab)
      == PresentAmong(m, keys, vocab) + (if Collects(m, key, vocab) then {NameOf(m[key])} else {})
  {
  }

  /** The write-back loop over the vocabulary: 1 for each present name. */
  method WriteFlags(d: PropertyBag, present: set<string>, vocab: seq<string>)
    modifies d
    ensures d.items == old(d.items) + Flags(set n | n in present && n in vocab)
  {
    ghost var base := d.items;
    ghost var written: set<string> := {};
    for i := 0 to |vocab|
      invariant d.items == base + Flags(written)
      invariant forall n :: n in written <==> n in present && n in vocab[..i]
    {
      var name := vocab[i];
      assert vocab[..i + 1] == vocab[..i] + [name];
      if name in present {
        d.items := d.items[name := Int(1)];
        written := written + {name};
      }
    }
    assert written == set n | n in present && n in vocab by {
      assert vocab[..|vocab|] == vocab;
    }
  }

  /** `format_dispersal_in_dynamic_properties`. */
  method FormatDispersalInDynamicProperties(dyn: Json, vocab: seq<string>) returns (r: Json)
    modifies if dyn.Dict? then {dyn.bag} else {}
    ensures r == dyn
    ensures dyn.Dict? ==> dyn.bag.items == Formatted(old(dyn.bag.items), vocab)
  {
    if !dyn.Dict? {
      return dyn;
    }
    var present := CollectAndRemoveDispersalKeys(dyn.bag, vocab);
    WriteFlags(dyn.bag, present, vocab);
    assert (set n | n in present && n in vocab) == present;
    return dyn;
  }

  /** `format_dispersal_in_flat_dict`: the same steps, for the flat rows of a
      table (keys such as `dynamicProperties_acheneDispersalStructure`). */
  method FormatDispersalInFlatDict(flat: Json, vocab: seq<string>) returns (r: Json)
    modifies if flat.Dict? then {flat.bag} else {}
    ensures r == flat
    ensures flat.Dict? ==> flat.bag.items == Formatted(old(flat.bag.items), vocab)
  {
    if !flat.Dict? {
      return flat;
    }
    var present := CollectAndRemoveDispersalKeys(flat.bag, vocab);
    WriteFlags(flat.bag, present, vocab);
    assert (set n | n in present && n in vocab) == present;
    return flat;
  }

  /** A dispersal key survives formatting only as the name of a present
      trait, that is, only when the vocabulary itself holds such a name. */
  lemma NoDispersalKeyRemains(m: map<string, Value>, vocab: seq<string>, k: string)
    ensures k in Formatted(m, vocab) && IsDispersalKey(k) ==>
      k in Present(m, vocab) && k in vocab && Formatted(m, vocab)[k] == Int(1)
  {
  }

  /** With a vocabulary free of dispersal-key names, no dispersal key is left
      at all. */
  lemma NoDispersalKeyLeft(m: map<string, Value>, vocab: seq<string>)
    requires forall n | n in vocab :: !IsDispersalKey(n)
    ensures DispersalKeys(Formatted(m, vocab)) == {}
  {
    forall k | k in Formatted(m, vocab) && IsDispersalKey(k)
      ensures false
    {
      NoDispersalKeyRemains(m, vocab, k);
    }
  }

  /** Each vocabulary name is 1 after formatting when it was collected; when
      it was not, it is never written: it keeps whatever entry it had, unless
      it is itself a dispersal key and so was removed. */
  lemma TraitNames(m: map<string, Value>, vocab: seq<string>, n: string)
    requires n in vocab
    ensures n in Present(m, vocab) ==> n in Formatted(m, vocab) && Formatted(m, vocab)[n] == Int(1)
    ensures n !in Present(m, vocab) && !IsDispersalKey(n) ==>
      (n in Formatted(m, vocab) <==> n in m) && (n in m ==> Formatted(m, vocab)[n] == m[n])
    ensures n !in Present(m, vocab) && IsDispersalKey(n) ==> n !in Formatted(m, vocab)
  {
  }

  /** A key that is neither a dispersal key nor a present trait name keeps
      its entry, or its absence. */
  lemma OtherKeysKept(m: map<string, Value>, vocab: seq<string>, k: string)
    requires !IsDispersalKey(k) && k !in Present(m, vocab)
    ensures k in Formatted(m, vocab) <==> k in m
    ensures k in m ==> Formatted(m, vocab)[k] == m[k]
  {
  }

  /** The writer adds only 1s: every other value it leaves was there before,
      under the same key, so in particular it never writes a 0. */
  lemma OnlyOnesWritten(m: map<string, Value>, vocab: seq<string>, k: string)
    requires k in Formatted(m, vocab) && Formatted(m, vocab)[k] != Int(1)
    ensures k in m && Formatted(m, vocab)[k] == m[k] && !IsDispersalKey(k)
  {
  }

  /** Formatting a formatted dictionary changes nothing, provided no
      vocabulary name is itself a dispersal key. */
  lemma FormattedIdempotent(m: map<string, Value>, vocab: seq<string>)
    requires forall n | n in vocab :: !IsDispersalKey(n)
    ensures Formatted(Formatted(m, vocab), vocab) == Formatted(m, vocab)
  {
    var f := Formatted(m, vocab);
    assert DispersalKeys(f) == {} by {
      NoDispersalKeyLeft(m, vocab);
    }
    CleanIsFixed(f, vocab);
  }

  /** A dictionary without dispersal keys is its own formatting. */
  lemma CleanIsFixed(f: map<string, Value>, vocab: seq<string>)
    requires DispersalKeys(f) == {}
    ensures Formatted(f, vocab) == f
  {
    assert Present(f, vocab) == {};
    assert f - DispersalKeys(f) == f;
    assert Flags({}) == map[];
  }

  /** The camel-case spelling used in property names. */
  lemma LowerDispersalStructure()
    ensures Lower("DispersalStructure") == "dispersalstructure"
  {
  }

  /** Any property name with `DispersalStructure` in it, such as the flat
      column `dynamicProperties_acheneDispersalStructure`, is a dispersal key. */
  lemma CamelCaseDispersalKey(prefix: string, suffix: string)
    ensures IsDispersalKey(prefix + "DispersalStructure" + suffix)
  {
    var word := "DispersalStructure";
    var low := Lower(prefix + word + suffix);
    assert low[|prefix|..|prefix| + |word|] == Lower(word) by {
      LowerAppend(prefix, word + suffix);
      LowerAppend(word, suffix);
      assert prefix + word + suffix == prefix + (word + suffix);
    }
    LowerDispersalStructure();
    assert OccursAt(low, "dispersalstructure", |prefix|);
  }
}
