/** `allergen_reference` as the Ruby source literally evaluates it. A Ruby
    method returns its last expression; in the branch for a key seen for
    the first time that expression appends the shortcode to the used set,
    so the method returns the used set rather than the new allergen. Only
    the known-key branch returns an allergen. The fetch loop over the
    legend ignores the return value, so the slip shows only when an item
    names a key the legend did not list. */
module AsWritten {
  import opened Wrappers
  import opened RubyString
  import opened Dining
  import opened AllergenRegistry
  import opened ManifestFetcher
  import opened Scenarios

  /** The Ruby values `allergen_reference` can return as written. */
  datatype Returned = Nil | AllergenValue(allergen: Allergen) | ShortcodeSet(codes: set<string>)

  datatype Reference = Reference(returned: Returned, registry: Registry)

  /** `allergen_reference` as written: same registry update as the
      corrected `Resolve`, different return value for new keys. */
  function ReferenceAsWritten(reg: Registry, cls: string): (r: Reference)
    ensures r.registry == Resolve(reg, cls).registry
    ensures r.returned.AllergenValue? ==> Resolve(reg, cls).allergen == Some(r.returned.allergen)
    ensures r.returned.Nil? <==> Resolve(reg, cls).allergen.None?
  {
    match Cleanup(cls)
    case None => Reference(Nil, reg)
    case Some(key) =>
      if key in reg.allergens then
        Reference(AllergenValue(reg.allergens[key]), reg)
      else
        var res := Resolve(reg, cls);
        Reference(ShortcodeSet(res.registry.used), res.registry)
  }

  /** For class strings naming no key or a key already stored, the literal
      code returns exactly what the corrected `Resolve` returns. */
  lemma AsWrittenAgreesOnKnownKeys(reg: Registry, cls: string)
    requires Cleanup(cls).None? || Cleanup(cls).value in reg.allergens
    ensures match Resolve(reg, cls).allergen
      case None => ReferenceAsWritten(reg, cls).returned == Nil
      case Some(a) => ReferenceAsWritten(reg, cls).returned == AllergenValue(a)
  {
  }

  /** For a key seen for the first time the literal code returns the used
      shortcode set, never an allergen. */
  lemma AsWrittenNewKeyReturnsSet(reg: Registry, cls: string)
    requires Cleanup(cls).Some? && Cleanup(cls).value !in reg.allergens
    ensures ReferenceAsWritten(reg, cls).returned.ShortcodeSet?
    ensures Resolve(reg, cls).allergen.Some?
  {
  }

  /** Lines 143-148 as written: keep the truthy results, then `sort` and
      `Item.new`, which raise unless every kept value is an `Allergen`
      (`None` stands for the raised error). A built item carries the kept
      allergens in strictly ascending id order, one per id. */
  function ItemNewAsWritten(name: string, values: seq<Returned>): (r: Option<Item>)
    ensures r.Some? <==> forall v :: v in values ==> !v.ShortcodeSet?
    ensures r.Some? ==> r.value.name == name && SortedById(r.value.allergens)
    ensures r.Some? ==> forall a :: a in r.value.allergens ==> AllergenValue(a) in values
    ensures r.Some? ==> forall a :: AllergenValue(a) in values ==> HasId(r.value.allergens, a.id)
  {
    if exists v :: v in values && v.ShortcodeSet? then None
    else
      var allergens := AllergensOf(values);
      AllergensOfMembers(values);
      Some(Item(name, SortById(allergens)))
  }

  function AllergensOf(values: seq<Returned>): seq<Allergen> {
    if |values| == 0 then []
    else
      (match values[0] case AllergenValue(a) => [a] case _ => [])
      + AllergensOf(values[1..])
  }

  lemma {:induction false} AllergensOfMembers(values: seq<Returned>)
    ensures forall a :: a in AllergensOf(values) <==> AllergenValue(a) in values
  {
    if |values| > 0 {
      AllergensOfMembers(values[1..]);
      assert values == [values[0]] + values[1..];
    }
  }

  lemma {:induction false} AllergensOfAppend(a: seq<Returned>, b: seq<Returned>)
    ensures AllergensOf(a + b) == AllergensOf(a) + AllergensOf(b)
    decreases |a|
  {
    if |a| == 0 {
      assert a + b == b;
    } else {
      assert (a + b)[0] == a[0] && (a + b)[1..] == a[1..] + b;
      AllergensOfAppend(a[1..], b);
    }
  }

  /** A raising step: the value, if the step completes, and the registry
      it leaves. */
  datatype Attempt<T> = Attempt(value: Option<T>, registry: Registry)

  /** The values `allergen_reference` returns for a list of class
      strings, nil ones dropped (`item_allergens << allergen if allergen`),
      and the registry afterwards. */
  datatype References = References(values: seq<Returned>, registry: Registry)

  function ReferencesAsWritten(reg: Registry, classes: seq<string>): References
    decreases |classes|
  {
    if |classes| == 0 then References([], reg)
    else
      var first := ReferenceAsWritten(reg, classes[0]);
      var rest := ReferencesAsWritten(first.registry, classes[1..]);
      References((if first.returned.Nil? then [] else [first.returned]) + rest.values, rest.registry)
  }

  /** The registry updates as written are those of the corrected loop; in
      particular the legend pass, which ignores the return values, builds
      the same registry. */
  lemma {:induction false} ReferencesAsWrittenRegistry(reg: Registry, classes: seq<string>)
    requires Valid(reg)
    ensures ReferencesAsWritten(reg, classes).registry == ResolveAll(reg, classes).registry
    decreases |classes|
  {
    if |classes| > 0 {
      var first := Resolve(reg, classes[0]);
      assert ReferenceAsWritten(reg, classes[0]).registry == first.registry;
      ReferencesAsWrittenRegistry(first.registry, classes[1..]);
    }
  }

  /** When every key the classes name is already stored, the literal code
      returns only allergens, leaves the registry alone, and keeps exactly
      the allergens the corrected loop finds. */
  lemma {:induction false} ReferencesKnown(reg: Registry, classes: seq<string>)
    requires Valid(reg) && KeysOf(classes) <= reg.allergens.Keys
    ensures var refs := ReferencesAsWritten(reg, classes);
      && refs.registry == reg
      && (forall v :: v in refs.values ==> !v.ShortcodeSet?)
      && ResolveAll(reg, classes) == Resolved(AllergensOf(refs.values), reg)
    decreases |classes|
  {
    if |classes| > 0 {
      var c := classes[0];
      var first := ReferenceAsWritten(reg, c);
      assert KeyOf(c) <= reg.allergens.Keys;
      AsWrittenAgreesOnKnownKeys(reg, c);
      assert first.registry == reg;
      ReferencesKnown(reg, classes[1..]);
      var rest := ReferencesAsWritten(reg, classes[1..]);
      var head := if first.returned.Nil? then [] else [first.returned];
      AllergensOfAppend(head, rest.values);
      assert head == [] || AllergensOf(head) == [first.returned.allergen];
    }
  }

  /** When some class names a key not yet stored, the literal code returns
      a shortcode set for it. */
  lemma {:induction false} ReferencesUnknown(reg: Registry, classes: seq<string>)
    requires !(KeysOf(classes) <= reg.allergens.Keys)
    ensures exists v :: v in ReferencesAsWritten(reg, classes).values && v.ShortcodeSet?
    decreases |classes|
  {
    var c := classes[0];
    var first := ReferenceAsWritten(reg, c);
    var rest := ReferencesAsWritten(first.registry, classes[1..]);
    var values := ReferencesAsWritten(reg, classes).values;
    assert values == (if first.returned.Nil? then [] else [first.returned]) + rest.values;
    if Cleanup(c).Some? && Cleanup(c).value !in reg.allergens {
      AsWrittenNewKeyReturnsSet(reg, c);
      assert first.returned in values;
    } else {
      assert first.registry == reg;
      assert !(KeysOf(classes[1..]) <= reg.allergens.Keys);
      ReferencesUnknown(reg, classes[1..]);
      var v :| v in rest.values && v.ShortcodeSet?;
      assert v in values;
    }
  }

  /** The body of the `item_nodes.each` loop as written. It completes
      exactly when every key the item's classes name is already stored,
      and then builds the item the corrected model builds, leaving the
      registry alone. */
  function ExtractItemAsWritten(reg: Registry, rec: ItemRecord): (r: Attempt<Item>)
    requires Valid(reg)
    ensures r.value.Some? <==> KeysOf(rec.classes) <= reg.allergens.Keys
    ensures r.value.Some? ==> r.registry == reg && ExtractItem(reg, rec) == ItemResult(r.value.value, reg)
  {
    var refs := ReferencesAsWritten(reg, rec.classes);
    var item := ItemNewAsWritten(Strip(rec.text), refs.values);
    if KeysOf(rec.classes) <= reg.allergens.Keys then
      ReferencesKnown(reg, rec.classes);
      Attempt(item, refs.registry)
    else
      ReferencesUnknown(reg, rec.classes);
      Attempt(item, refs.registry)
  }

  /** The `item_nodes.each` loop as written: the first item that raises
      ends the fetch. */
  function ExtractItemsAsWritten(reg: Registry, recs: seq<ItemRecord>): (r: Attempt<seq<Item>>)
    requires Valid(reg)
    ensures r.value.Some? <==> ItemKeys(recs) <= reg.allergens.Keys
    ensures r.value.Some? ==> r.registry == reg && ExtractItems(reg, recs) == ItemsResult(r.value.value, reg)
    decreases |recs|
  {
    if |recs| == 0 then Attempt(Some([]), reg)
    else
      var first := ExtractItemAsWritten(reg, recs[0]);
      match first.value
      case None => Attempt(None, first.registry)
      case Some(item) =>
        var rest := ExtractItemsAsWritten(first.registry, recs[1..]);
        match rest.value
        case None => Attempt(None, rest.registry)
        case Some(items) => Attempt(Some([item] + items), rest.registry)
  }

  /** The `location_nodes.each` loop as written. */
  function ExtractLocationsAsWritten(reg: Registry, recs: seq<LocationRecord>): (r: Attempt<seq<Location>>)
    requires Valid(reg)
    ensures r.value.Some? <==> ReferencedKeys(recs) <= reg.allergens.Keys
    ensures r.value.Some? ==>
      r.registry == reg && ExtractLocations(reg, recs) == LocationsResult(r.value.value, reg)
    decreases |recs|
  {
    if |recs| == 0 then Attempt(Some([]), reg)
    else
      match recs[0].title
      case None => ExtractLocationsAsWritten(reg, recs[1..])
      case Some(title) =>
        if recs[0].closed then
          var rest := ExtractLocationsAsWritten(reg, recs[1..]);
          match rest.value
          case None => Attempt(None, rest.registry)
          case Some(locs) => Attempt(Some([Location(Strip(title), [])] + locs), rest.registry)
        else
          var items := ExtractItemsAsWritten(reg, recs[0].items);
          match items.value
          case None => Attempt(None, items.registry)
          case Some(built) =>
            var rest := ExtractLocationsAsWritten(items.registry, recs[1..]);
            match rest.value
            case None => Attempt(None, rest.registry)
            case Some(locs) => Attempt(Some([Location(Strip(title), built)] + locs), rest.registry)
  }

  /** `ManifestFetcher#fetch` as written (`None` stands for any raised
      error). It returns a manifest exactly when the status is 2xx, there
      are location nodes, and every allergen an item of a titled open
      location names is listed in the legend; that manifest is the one the
      corrected `Fetch` returns. */
  function FetchAsWritten(resp: Response): (r: Option<Manifest>)
    ensures r.Some? <==>
      && IsSuccess(resp.code)
      && |resp.page.locations| > 0
      && ReferencedKeys(resp.page.locations) <= KeysOf(resp.page.legend)
    ensures r.Some? ==> Fetch(resp) == Success(r.value)
  {
    if !IsSuccess(resp.code) then None
    else
      var legend := ReferencesAsWritten(EmptyRegistry, resp.page.legend).registry;
      EmptyRegistryValid();
      ReferencesAsWrittenRegistry(EmptyRegistry, resp.page.legend);
      assert legend == LegendRegistry(resp.page.legend);
      if |resp.page.locations| == 0 then None
      else
        var locs := ExtractLocationsAsWritten(legend, resp.page.locations);
        match locs.value
        case None => None
        case Some(built) => Some(Manifest(SortLocations(built), locs.registry.allergens.Values))
  }

  /** The literal code, on an empty registry, answers "diet Gluten" with
      the used set {"g"}, and building an item from that value raises. */
  lemma UnlistedAllergenBreaksItem()
    ensures var r := ReferenceAsWritten(EmptyRegistry, DietClass("Gluten"));
      r.returned == ShortcodeSet({"g"}) && ItemNewAsWritten("Pasta", [r.returned]).None?
  {
    CleanupWord("Gluten", "gluten");
    var r := ReferenceAsWritten(EmptyRegistry, DietClass("Gluten"));
    assert r.registry == Registry(map["gluten" := Allergen("gluten", "g")], {"g"});
    assert r.returned in [r.returned];
  }

  lemma GlutenFound()
    ensures ResolveAll(EmptyRegistry, [DietClass("Gluten")]).found == [Allergen("gluten", "g")]
  {
    CleanupWord("Gluten", "gluten");
    EmptyRegistryValid();
    assert ["gluten"[0]] == "g";
    assert ChooseShortcode({}, "gluten") == "g";
    var first := Resolve(EmptyRegistry, DietClass("Gluten"));
    assert first.allergen == Some(Allergen("gluten", "g"));
    assert [DietClass("Gluten")][1..] == [];
    assert ResolveAll(first.registry, []).found == [];
  }

  lemma StripPasta()
    ensures Strip("Pasta") == "Pasta"
  {
    assert Span("Pasta", IsStripSpace) == 0;
    assert SpanRight("Pasta", IsStripSpace) == 0;
    assert "Pasta"[0..] == "Pasta";
  }

  /** The corrected model builds the same item with the gluten allergen. */
  lemma UnlistedAllergenCorrected()
    ensures ExtractItem(EmptyRegistry, ItemRecord("Pasta", [DietClass("Gluten")])).item
      == Item("Pasta", [Allergen("gluten", "g")])
  {
    EmptyRegistryValid();
    GlutenFound();
    StripPasta();
    assert SortById([Allergen("gluten", "g")]) == [Allergen("gluten", "g")];
  }

  /** The keys a one-location page references, spelled out. */
  lemma SingleItemKeys(cls: string, key: string, item: ItemRecord, loc: LocationRecord)
    requires Cleanup(cls) == Some(key)
    requires item.classes == [cls] && loc.title.Some? && !loc.closed && loc.items == [item]
    ensures ReferencedKeys([loc]) == {key}
  {
    assert [cls][1..] == [];
    assert KeysOf([cls]) == {key};
    assert [item][1..] == [];
    assert ItemKeys([item]) == {key};
    assert LocationKeys(loc) == {key};
    assert [loc][1..] == [];
  }

  /** The whole fetch, on a 2xx page with an empty legend and one titled
      open location whose only item is "Pasta" with class "diet Gluten":
      as written it raises, while the corrected model returns a manifest. */
  lemma UnlistedAllergenBreaksFetch()
    ensures var page := Page([], [LocationRecord(Some("Seibel"), false, [ItemRecord("Pasta", [DietClass("Gluten")])])]);
      var resp := Response(200, page);
      FetchAsWritten(resp).None? && Fetch(resp).Success?
  {
    var item := ItemRecord("Pasta", [DietClass("Gluten")]);
    var loc := LocationRecord(Some("Seibel"), false, [item]);
    CleanupWord("Gluten", "gluten");
    SingleItemKeys(DietClass("Gluten"), "gluten", item, loc);
    assert KeysOf([]) == {};
  }
}
