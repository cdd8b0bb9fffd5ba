/** Worked scenarios for the registry: concrete class strings and the
    allergens they resolve to. */
module Scenarios {
  import opened Wrappers
  import opened RubyString
  import opened Shortcode
  import opened Dining
  import opened AllergenRegistry
  import opened ManifestFetcher

  /** The class attribute of a `div.diet` node for the allergen `word`. */
  function DietClass(word: string): string {
    "diet " + word
  }

  /** "diet " followed by a capitalised or lowercase word names that word
      in lower case. */
  lemma CleanupWord(word: string, key: string)
    requires |word| > 0 && forall k :: 0 <= k < |word| ==> IsLetter(word[k])
    requires key == Downcase(word)
    ensures Cleanup(DietClass(word)) == Some(key)
  {
    var cls := DietClass(word);
    assert cls[..4] == "diet";
    assert cls[5..|cls|] == word;
    CleanupComplete(cls, 5, |cls|);
  }

  const Gluten := Allergen("gluten", "g")
  const Dairy := Allergen("dairy", "d")
  const Garlic := Allergen("garlic", "G")

  /** Resolving a list steps through its first class string. */
  lemma ResolveAllStep(reg: Registry, classes: seq<string>)
    requires Valid(reg) && |classes| > 0
    ensures Valid(Resolve(reg, classes[0]).registry)
    ensures ResolveAll(reg, classes).registry == ResolveAll(Resolve(reg, classes[0]).registry, classes[1..]).registry
  {
    ResolveStep(reg, classes[0]);
  }

  /** A class naming a new key adds that key under the chosen shortcode. */
  lemma ResolveNew(reg: Registry, cls: string, key: string, code: string)
    requires Cleanup(cls) == Some(key) && key !in reg.allergens
    requires ChooseShortcode(reg.used, key) == code
    ensures Resolve(reg, cls).registry == Registry(reg.allergens[key := Allergen(key, code)], reg.used + {code})
  {
  }

  /** A class naming a known key leaves the registry as it is. */
  lemma ResolveKnown(reg: Registry, cls: string, key: string)
    requires Cleanup(cls) == Some(key) && key in reg.allergens
    ensures Resolve(reg, cls).registry == reg
  {
  }

  lemma FirstGluten()
    ensures Resolve(EmptyRegistry, DietClass("Gluten")).registry == Registry(map["gluten" := Gluten], {"g"})
  {
    CleanupWord("Gluten", "gluten");
    assert ["gluten"[0]] == "g";
    ResolveNew(EmptyRegistry, DietClass("Gluten"), "gluten", "g");
  }

  lemma GlutenAgain()
    ensures Resolve(Registry(map["gluten" := Gluten], {"g"}), DietClass("gluten")).registry
      == Registry(map["gluten" := Gluten], {"g"})
  {
    CleanupWord("gluten", "gluten");
    ResolveKnown(Registry(map["gluten" := Gluten], {"g"}), DietClass("gluten"), "gluten");
  }

  lemma ThenDairy()
    ensures Resolve(Registry(map["gluten" := Gluten], {"g"}), DietClass("Dairy")).registry
      == Registry(map["gluten" := Gluten, "dairy" := Dairy], {"g", "d"})
  {
    CleanupWord("Dairy", "dairy");
    assert ["dairy"[0]] == "d";
    assert ChooseShortcode({"g"}, "dairy") == "d";
    ResolveNew(Registry(map["gluten" := Gluten], {"g"}), DietClass("Dairy"), "dairy", "d");
  }

  /** Garlic's first letter "g" is taken by gluten, so it gets "G". */
  lemma GarlicCode()
    ensures ChooseShortcode({"g", "d"}, "garlic") == "G"
  {
    assert "garlic"[0] == 'g';
    assert ["garlic"[0]] == "g";
    assert [UpcaseChar('g')] == "G";
  }

  lemma ThenGarlic()
    ensures Resolve(Registry(map["gluten" := Gluten, "dairy" := Dairy], {"g", "d"}), DietClass("Garlic")).registry
      == Registry(map["gluten" := Gluten, "dairy" := Dairy, "garlic" := Garlic], {"g", "d", "G"})
  {
    CleanupWord("Garlic", "garlic");
    GarlicCode();
    ResolveNew(Registry(map["gluten" := Gluten, "dairy" := Dairy], {"g", "d"}), DietClass("Garlic"), "garlic", "G");
  }

  /** "diet Gluten", "diet gluten", "diet Dairy", "diet Garlic" resolve to
      three allergens: gluten gets "g", dairy "d", and garlic, whose first
      letter is already taken, the swapped-case "G". */
  lemma LegendExample()
    ensures LegendRegistry([DietClass("Gluten"), DietClass("gluten"), DietClass("Dairy"), DietClass("Garlic")]).allergens
      == map["gluten" := Gluten, "dairy" := Dairy, "garlic" := Garlic]
  {
    var l4 := [DietClass("Gluten"), DietClass("gluten"), DietClass("Dairy"), DietClass("Garlic")];
    var l3, l2, l1 := l4[1..], l4[2..], l4[3..];
    var r1 := Registry(map["gluten" := Gluten], {"g"});
    var r3 := Registry(map["gluten" := Gluten, "dairy" := Dairy], {"g", "d"});
    var r4 := Registry(map["gluten" := Gluten, "dairy" := Dairy, "garlic" := Garlic], {"g", "d", "G"});
    EmptyRegistryValid();
    FirstGluten();
    ResolveAllStep(EmptyRegistry, l4);
    GlutenAgain();
    ResolveAllStep(r1, l3);
    assert l3[1..] == l2;
    ThenDairy();
    ResolveAllStep(r1, l2);
    assert l2[1..] == l1;
    ThenGarlic();
    ResolveAllStep(r3, l1);
    assert l1[1..] == [];
    calc {
      LegendRegistry(l4);
      ResolveAll(EmptyRegistry, l4).registry;
      ResolveAll(r1, l3).registry;
      ResolveAll(r1, l2).registry;
      ResolveAll(r3, l1).registry;
      ResolveAll(r4, []).registry;
      r4;
    }
  }

  lemma SuccSteps()
    ensures Succ("g") == "h" && Succ("h") == "i"
  {
  }

  lemma SearchFromH()
    ensures NextFree({"g", "G", "h"}, "h") == "i"
  {
    var used := {"g", "G", "h"};
    assert Downcase("h") == "h";
    SuccSteps();
    assert Succ(Downcase("h")) == "i";
    assert "h" in used && "i" !in used;
    assert NextFree(used, "i") == "i";
    assert NextFree(used, "h") == NextFree(used, Succ(Downcase("h")));
  }

  /** Past the swapped case the search continues with lowercase words
      only: with "g", "G" and "h" taken, the next "g" key gets "i", even
      though "H" is free. */
  lemma ChainSkipsUpperCase()
    ensures ChooseShortcode({"g", "G", "h"}, "grain") == "i"
  {
    assert ["grain"[0]] == "g";
    assert [UpcaseChar('g')] == "G";
    assert Downcase("G") == "g";
    SuccSteps();
    SearchFromH();
  }

  /** With "z" and "Z" taken the chain carries into two letters: "aa". */
  lemma ChainCarriesPastZ()
    ensures ChooseShortcode({"z", "Z"}, "zinc") == "aa"
  {
    assert ["zinc"[0]] == "z";
    assert [UpcaseChar('z')] == "Z";
    assert Downcase("Z") == "z";
    assert Succ("z") == "aa";
  }
}
