/** The constants of the post-pass: the words of the fruit and seed parts it
    links to, and its static table from fruit types to the part they belong
    to. */
module FruitTypeTable {

  /** The part words that make a part entity an anchor. */
  predicate IsFruitSeedWord(w: string) {
    w == "fruit" || w == "seed" || w == "fruits" || w == "seeds"
  }

  /** The fruit types of the post-pass's table, by fruit group: achenes and
      berries, capsules to follicles, gymnosperm cones to pomes, and samaras
      to utricles. */
  function AchenesBerries(): set<string> {
    {
      "achene", "cypsela", "anthocarp",
      "berry", "amphisarca", "arillocarpium", "balausta", "cactidium", "epispermatium", "hesperidium",
      "pepo", "syncarp"
    }
  }

  function CapsulesToFollicles(): set<string> {
    {
      "capsule", "circumscissile", "loculicidal", "poricidal", "pyxis", "septicidal", "silicle", "silique",
      "caryopsis", "grain",
      "drupe", "drupelet", "drupetum", "pseudodrupe", "stone fruit",
      "follicle"
    }
  }

  function ConesToPomes(): set<string> {
    {
      "cone", "megastrobilus", "microstrobilus", "strobili", "strobilus", "berry-like cone", "cone berry",
      "galbulus",
      "legume", "loment", "pod",
      "nut", "nutlet",
      "pome", "nuculanium"
    }
  }

  function SamarasToUtricles(): set<string> {
    {
      "samara", "samaroid",
      "schizocarp", "camara", "carcerulus", "coccus", "cremocarp", "mericarp", "regma",
      "sorosis", "syconium", "utricle"
    }
  }

  /** All 55 fruit types. */
  function FruitTypes(): set<string> {
    AchenesBerries() + CapsulesToFollicles() + ConesToPomes() + SamarasToUtricles()
  }

  /** No anchor word is a fruit type, group by group. */
  lemma FruitSeedWordsNotAchenesBerries()
    ensures "fruit" !in AchenesBerries() && "seed" !in AchenesBerries() && "fruits" !in AchenesBerries() && "seeds" !in AchenesBerries()
  {
  }

  lemma FruitSeedWordsNotCapsulesToFollicles()
    ensures "fruit" !in CapsulesToFollicles() && "seed" !in CapsulesToFollicles() && "fruits" !in CapsulesToFollicles() && "seeds" !in CapsulesToFollicles()
  {
  }

  lemma FruitSeedWordsNotConesToPomes()
    ensures "fruit" !in ConesToPomes() && "seed" !in ConesToPomes() && "fruits" !in ConesToPomes() && "seeds" !in ConesToPomes()
  {
  }

  lemma FruitSeedWordsNotSamarasToUtricles()
    ensures "fruit" !in SamarasToUtricles() && "seed" !in SamarasToUtricles() && "fruits" !in SamarasToUtricles() && "seeds" !in SamarasToUtricles()
  {
  }

  /** The static fruit-type to part table of the post-pass: every one of the
      55 fruit types maps to "fruit", and no anchor word is a fruit type. */
  function FruitTypeToPart(): (m: map<string, string>)
    ensures m.Keys == FruitTypes()
    ensures forall k | k in m :: m[k] == "fruit"
    ensures forall w | IsFruitSeedWord(w) :: w !in m
  {
    FruitSeedWordsNotAchenesBerries();
    FruitSeedWordsNotCapsulesToFollicles();
    FruitSeedWordsNotConesToPomes();
    FruitSeedWordsNotSamarasToUtricles();
    map k | k in FruitTypes() :: "fruit"
  }
}
