/** The part of `ManifestFetcher#fetch` that runs after the page is parsed:
    legend resolution, per-location extraction, the location sort and the
    manifest assembly. The HTML queries are replaced by records holding
    what each query would return. */
module ManifestFetcher {
  import opened Wrappers
  import opened RubyString
  import opened Dining
  import opened AllergenRegistry

  /** A `div.menu-item` node: its text, and the class strings of the
      `div.allergen div.diet` nodes found under its parent. */
  datatype ItemRecord = ItemRecord(text: string, classes: seq<string>)

  /** A `div.item` node: the text of its first `div.servery-title h1`
      node (`None` when it has none), whether it holds a `div.nothere`
      marker, and its menu items. */
  datatype LocationRecord = LocationRecord(title: Option<string>, closed: bool, items: seq<ItemRecord>)

  /** A parsed page: the class strings of the `div#key div.diet` legend
      nodes and the location nodes, in document order. */
  datatype Page = Page(legend: seq<string>, locations: seq<LocationRecord>)

  /** The HTTP response: its status code and the page its body parses to. */
  datatype Response = Response(code: int, page: Page)

  /** The two failures `fetch` reports, at lines 124 and 168: a non-2xx
      status, and a page without location nodes. */
  datatype FetchError = HttpError(code: int) | NoLocations

  /** `Net::HTTPSuccess` covers the 2xx status codes. */
  predicate IsSuccess(code: int) {
    200 <= code <= 299
  }

  /** The key a class string names, if any. */
  function KeyOf(cls: string): set<string> {
    match Cleanup(cls)
    case Some(k) => {k}
    case None => {}
  }

  /** The keys a list of class strings names. */
  function KeysOf(classes: seq<string>): set<string> {
    if |classes| == 0 then {} else KeyOf(classes[0]) + KeysOf(classes[1..])
  }

  function Ids(s: set<Allergen>): set<string> {
    set a | a in s :: a.id
  }

  /** `reg'` keeps every entry of `reg` unchanged. */
  ghost predicate Extends(reg: Registry, reg': Registry) {
    forall k :: k in reg.allergens ==> k in reg'.allergens && reg'.allergens[k] == reg.allergens[k]
  }

  /** `a` is the allergen `reg` stores under its id. */
  ghost predicate Registered(reg: Registry, a: Allergen) {
    a.id in reg.allergens && reg.allergens[a.id] == a
  }

  ghost predicate ItemRegistered(reg: Registry, item: Item) {
    forall a :: a in item.allergens ==> Registered(reg, a)
  }

  ghost predicate LocationRegistered(reg: Registry, loc: Location) {
    forall item :: item in loc.items ==> ItemRegistered(reg, item)
  }

  /** Allergens in strictly ascending `id` order, so no `id` repeats. */
  ghost predicate SortedById(s: seq<Allergen>) {
    forall i, j :: 0 <= i < j < |s| ==> Cmp(s[i].id, s[j].id) < 0
  }

  /** Some allergen in `s` has id `id`. */
  ghost predicate HasId(s: seq<Allergen>, id: string) {
    exists b :: b in s && b.id == id
  }

  /** The ids of `s` are exactly `keys`. */
  ghost predicate CarriesKeys(s: seq<Allergen>, keys: set<string>) {
    && (forall a :: a in s ==> a.id in keys)
    && (forall k :: k in keys ==> HasId(s, k))
  }

  /** One `allergen_reference` call, seen from the pipeline: the key it
      names joins the registry, nothing stored changes, and the allergen it
      returns is the one stored under that key. */
  lemma ResolveStep(reg: Registry, cls: string)
    requires Valid(reg)
    ensures var res := Resolve(reg, cls);
      && Valid(res.registry)
      && res.registry.allergens.Keys == reg.allergens.Keys + KeyOf(cls)
      && Extends(reg, res.registry)
      && (res.allergen.Some? <==> Cleanup(cls).Some?)
      && (res.allergen.Some? ==>
            Registered(res.registry, res.allergen.value) && KeyOf(cls) == {res.allergen.value.id})
  {
  }

  /** Allergens found so far and the registry after finding them. */
  datatype Resolved = Resolved(found: seq<Allergen>, registry: Registry)

  /** `allergen_reference` applied to each class string in order, keeping
      the non-nil results (`item_allergens << allergen if allergen`). */
  function ResolveAll(reg: Registry, classes: seq<string>): (r: Resolved)
    requires Valid(reg)
    ensures Valid(r.registry)
    ensures r.registry.allergens.Keys == reg.allergens.Keys + KeysOf(classes)
    ensures Extends(reg, r.registry)
    ensures forall a :: a in r.found ==> Registered(r.registry, a)
    ensures CarriesKeys(r.found, KeysOf(classes))
    decreases |classes|
  {
    if |classes| == 0 then Resolved([], reg)
    else
      var first := Resolve(reg, classes[0]);
      ResolveStep(reg, classes[0]);
      var rest := ResolveAll(first.registry, classes[1..]);
      match first.allergen
      case None => rest
      case Some(a) =>
        var r := Resolved([a] + rest.found, rest.registry);
        forall k | k in KeysOf(classes)
          ensures HasId(r.found, k)
        {
          if k != a.id {
            var b :| b in rest.found && b.id == k;
            assert b in r.found;
          }
        }
        r
  }

  lemma ConsSortedById(x: Allergen, s: seq<Allergen>)
    requires SortedById(s)
    requires forall b :: b in s ==> Cmp(x.id, b.id) < 0
    ensures SortedById([x] + s)
  {
    var r := [x] + s;
    forall i, j | 0 <= i < j < |r|
      ensures Cmp(r[i].id, r[j].id) < 0
    {
      if i > 0 {
        assert r[i] == s[i - 1] && r[j] == s[j - 1];
      } else {
        assert r[j] in s;
      }
    }
  }

  /** Insertion of one allergen into a list kept in strictly ascending `id`
      order; an allergen whose `id` is already present is not added again. */
  function InsertById(a: Allergen, s: seq<Allergen>): (r: seq<Allergen>)
    requires SortedById(s)
    ensures SortedById(r)
    ensures forall b :: b in r ==> b == a || b in s
    ensures forall b :: b in s ==> b in r
    ensures HasId(r, a.id)
  {
    if |s| == 0 then [a]
    else if a.id == s[0].id then s
    else if Cmp(a.id, s[0].id) < 0 then
      forall b | b in s
        ensures Cmp(a.id, b.id) < 0
      {
        if b != s[0] {
          CmpStrictTransitive(a.id, s[0].id, b.id);
        }
      }
      ConsSortedById(a, s);
      [a] + s
    else
      var rest := InsertById(a, s[1..]);
      CmpZeroIffEqual(a.id, s[0].id);
      CmpAntisymmetric(a.id, s[0].id);
      forall b | b in rest
        ensures Cmp(s[0].id, b.id) < 0
      {
      }
      ConsSortedById(s[0], rest);
      assert s == [s[0]] + s[1..];
      [s[0]] + rest
  }

  /** `item_allergens.sort` followed by `Item.new`, whose `Set` keeps one
      entry per allergen. */
  function SortById(s: seq<Allergen>): (r: seq<Allergen>)
    ensures SortedById(r)
    ensures forall b :: b in r ==> b in s
    ensures forall b :: b in s ==> HasId(r, b.id)
  {
    if |s| == 0 then []
    else
      var rest := SortById(s[1..]);
      var r := InsertById(s[0], rest);
      forall b | b in s
        ensures HasId(r, b.id)
      {
        if b != s[0] {
          var c :| c in rest && c.id == b.id;
          assert c in r;
        }
      }
      r
  }

  /** Sorting allergens the registry hands out loses none and adds none:
      in a registry an `id` determines its allergen. */
  lemma SortByIdKeepsRegistered(reg: Registry, s: seq<Allergen>)
    requires forall a :: a in s ==> Registered(reg, a)
    ensures (set b | b in SortById(s)) == (set b | b in s)
  {
    var r := SortById(s);
    forall a | a in s
      ensures a in r
    {
      var b :| b in r && b.id == a.id;
    }
  }

  lemma ExtendsTransitive(r1: Registry, r2: Registry, r3: Registry)
    requires Extends(r1, r2) && Extends(r2, r3)
    ensures Extends(r1, r3)
  {
  }

  /** An item whose allergens a registry stores stays stored as the
      registry grows. */
  lemma ItemStaysRegistered(reg: Registry, reg': Registry, item: Item)
    requires Extends(reg, reg') && ItemRegistered(reg, item)
    ensures ItemRegistered(reg', item)
  {
    forall a | a in item.allergens
      ensures Registered(reg', a)
    {
      assert Registered(reg, a);
    }
  }

  /** `item` is what the loop builds from `rec` with allergens stored in
      `reg`: the stripped text as name, and allergens in strictly ascending
      id order whose ids are exactly the keys the item's classes name. */
  ghost predicate ItemFrom(rec: ItemRecord, item: Item, reg: Registry) {
    && item.name == Strip(rec.text)
    && SortedById(item.allergens)
    && CarriesKeys(item.allergens, KeysOf(rec.classes))
    && ItemRegistered(reg, item)
  }

  /** One item and the registry after building it. */
  datatype ItemResult = ItemResult(item: Item, registry: Registry)

  /** The body of the `item_nodes.each` loop: strip the text, resolve the
      allergen classes, sort the allergens and build the `Item`. */
  function ExtractItem(reg: Registry, rec: ItemRecord): (r: ItemResult)
    requires Valid(reg)
    ensures Valid(r.registry)
    ensures r.registry.allergens.Keys == reg.allergens.Keys + KeysOf(rec.classes)
    ensures Extends(reg, r.registry)
    ensures ItemFrom(rec, r.item, r.registry)
  {
    var found := ResolveAll(reg, rec.classes);
    var item := Item(Strip(rec.text), SortById(found.found));
    assert CarriesKeys(item.allergens, KeysOf(rec.classes)) by {
      forall k | k in KeysOf(rec.classes)
        ensures HasId(item.allergens, k)
      {
        var b :| b in found.found && b.id == k;
      }
    }
    ItemResult(item, found.registry)
  }

  /** Items built so far and the registry after building them. */
  datatype ItemsResult = ItemsResult(items: seq<Item>, registry: Registry)

  /** The keys named by the allergen classes of a list of items. */
  function ItemKeys(recs: seq<ItemRecord>): set<string> {
    if |recs| == 0 then {} else KeysOf(recs[0].classes) + ItemKeys(recs[1..])
  }

  /** Prepending the first item to the items built from the rest of the
      records keeps every item matched with its record. */
  lemma ItemsFromCons(recs: seq<ItemRecord>, item: Item, items: seq<Item>, reg: Registry, reg': Registry)
    requires |recs| == |items| + 1
    requires ItemFrom(recs[0], item, reg) && Extends(reg, reg')
    requires forall i :: 0 <= i < |items| ==> ItemFrom(recs[i + 1], items[i], reg')
    ensures forall i :: 0 <= i < |recs| ==> ItemFrom(recs[i], ([item] + items)[i], reg')
  {
    ItemStaysRegistered(reg, reg', item);
  }

  /** The `item_nodes.each` loop of an open location. */
  function ExtractItems(reg: Registry, recs: seq<ItemRecord>): (r: ItemsResult)
    requires Valid(reg)
    ensures Valid(r.registry)
    ensures r.registry.allergens.Keys == reg.allergens.Keys + ItemKeys(recs)
    ensures Extends(reg, r.registry)
    ensures |r.items| == |recs|
    ensures forall i :: 0 <= i < |recs| ==> ItemFrom(recs[i], r.items[i], r.registry)
    decreases |recs|
  {
    if |recs| == 0 then ItemsResult([], reg)
    else
      var first := ExtractItem(reg, recs[0]);
      var rest := ExtractItems(first.registry, recs[1..]);
      ExtendsTransitive(reg, first.registry, rest.registry);
      ItemsFromCons(recs, first.item, rest.items, first.registry, rest.registry);
      ItemsResult([first.item] + rest.items, rest.registry)
  }

  /** `a` can be obtained from `b` by deleting elements, so it keeps the
      order of `b`. */
  predicate IsSubsequence<T(==)>(a: seq<T>, b: seq<T>)
    decreases |b|
  {
    if |a| == 0 then true
    else if |b| == 0 then false
    else (a[0] == b[0] && IsSubsequence(a[1..], b[1..])) || IsSubsequence(a, b[1..])
  }

  /** The number of location records without a title. */
  function CountUntitled(recs: seq<LocationRecord>): nat {
    if |recs| == 0 then 0 else (if recs[0].title.None? then 1 else 0) + CountUntitled(recs[1..])
  }

  /** The location records that have a title; the others are skipped. The
      result keeps the titled records in document order, each as often as
      it occurs, and one record for every record that is not untitled. */
  function Titled(recs: seq<LocationRecord>): (r: seq<LocationRecord>)
    ensures forall rec :: rec in r <==> rec in recs && rec.title.Some?
    ensures IsSubsequence(r, recs)
    ensures |r| == |recs| - CountUntitled(recs)
  {
    if |recs| == 0 then []
    else if recs[0].title.Some? then
      var rest := Titled(recs[1..]);
      var r := [recs[0]] + rest;
      assert r[1..] == rest;
      r
    else
      var rest := Titled(recs[1..]);
      assert |rest| > 0 ==> IsSubsequence(rest, recs[1..]);
      rest
  }

  /** `loc` is what the loop builds from the titled record `rec` with
      allergens stored in `reg`: the stripped title as name, no items when
      the closed marker is present, and otherwise one item per menu-item
      node, in order. */
  ghost predicate LocationFrom(rec: LocationRecord, loc: Location, reg: Registry) {
    && rec.title.Some?
    && loc.name == Strip(rec.title.value)
    && (rec.closed ==> loc.items == [])
    && (!rec.closed ==>
          && |loc.items| == |rec.items|
          && forall i :: 0 <= i < |rec.items| ==> ItemFrom(rec.items[i], loc.items[i], reg))
  }

  lemma LocationStaysRegistered(rec: LocationRecord, loc: Location, reg: Registry, reg': Registry)
    requires LocationFrom(rec, loc, reg) && Extends(reg, reg')
    ensures LocationFrom(rec, loc, reg')
  {
    if !rec.closed {
      forall i | 0 <= i < |rec.items|
        ensures ItemFrom(rec.items[i], loc.items[i], reg')
      {
        ItemStaysRegistered(reg, reg', loc.items[i]);
      }
    }
  }

  /** The keys whose allergens a location record makes the loop resolve:
      those of its items, unless it is untitled or closed, in which case
      its items are never looked at. */
  function LocationKeys(rec: LocationRecord): set<string> {
    if rec.title.Some? && !rec.closed then ItemKeys(rec.items) else {}
  }

  /** The keys named by all the location records. */
  function ReferencedKeys(recs: seq<LocationRecord>): set<string> {
    if |recs| == 0 then {} else LocationKeys(recs[0]) + ReferencedKeys(recs[1..])
  }

  /** A location, if one is built, and the registry afterwards. */
  datatype LocationResult = LocationResult(location: Option<Location>, registry: Registry)

  /** The body of the `location_nodes.each` loop. */
  function ExtractLocation(reg: Registry, rec: LocationRecord): (r: LocationResult)
    requires Valid(reg)
    ensures Valid(r.registry)
    ensures r.registry.allergens.Keys == reg.allergens.Keys + LocationKeys(rec)
    ensures Extends(reg, r.registry)
    ensures rec.title.None? ==> r == LocationResult(None, reg)
    ensures rec.title.Some? ==> r.location.Some? && LocationFrom(rec, r.location.value, r.registry)
  {
    match rec.title
    case None => LocationResult(None, reg)
    case Some(title) =>
      if rec.closed then
        LocationResult(Some(Location(Strip(title), [])), reg)
      else
        var items := ExtractItems(reg, rec.items);
        LocationResult(Some(Location(Strip(title), items.items)), items.registry)
  }

  /** Locations built so far and the registry after building them. */
  datatype LocationsResult = LocationsResult(locations: seq<Location>, registry: Registry)

  lemma LocationsFromCons(
    recs: seq<LocationRecord>, loc: Location, locs: seq<Location>, reg: Registry, reg': Registry)
    requires |recs| == |locs| + 1
    requires LocationFrom(recs[0], loc, reg) && Extends(reg, reg')
    requires forall i :: 0 <= i < |locs| ==> LocationFrom(recs[i + 1], locs[i], reg')
    ensures forall i :: 0 <= i < |recs| ==> LocationFrom(recs[i], ([loc] + locs)[i], reg')
  {
    LocationStaysRegistered(recs[0], loc, reg, reg');
  }

  /** The `location_nodes.each` loop: untitled records are skipped, every
      other record yields one location, in document order. */
  function ExtractLocations(reg: Registry, recs: seq<LocationRecord>): (r: LocationsResult)
    requires Valid(reg)
    ensures Valid(r.registry)
    ensures r.registry.allergens.Keys == reg.allergens.Keys + ReferencedKeys(recs)
    ensures Extends(reg, r.registry)
    ensures |r.locations| == |Titled(recs)|
    ensures forall i :: 0 <= i < |r.locations| ==> LocationFrom(Titled(recs)[i], r.locations[i], r.registry)
    decreases |recs|
  {
    if |recs| == 0 then LocationsResult([], reg)
    else
      var first := ExtractLocation(reg, recs[0]);
      var rest := ExtractLocations(first.registry, recs[1..]);
      ExtendsTransitive(reg, first.registry, rest.registry);
      match first.location
      case None => rest
      case Some(loc) =>
        LocationsFromCons(Titled(recs), loc, rest.locations, first.registry, rest.registry);
        LocationsResult([loc] + rest.locations, rest.registry)
  }

  /** Locations in the order `sort!` leaves them. */
  lemma ConsSortedLocations(x: Location, s: seq<Location>)
    requires SortedLocations(s)
    requires forall y :: y in s ==> LocationCompare(x, y) <= 0
    ensures SortedLocations([x] + s)
  {
    var r := [x] + s;
    forall i, j | 0 <= i < j < |r|
      ensures LocationCompare(r[i], r[j]) <= 0
    {
      if i > 0 {
        assert r[i] == s[i - 1] && r[j] == s[j - 1];
      } else {
        assert r[j] in s;
      }
    }
  }

  /** Insertion of one location into a sorted list, before the first
      location it does not sort after. */
  function InsertLocation(x: Location, s: seq<Location>): (r: seq<Location>)
    requires SortedLocations(s)
    ensures SortedLocations(r)
    ensures multiset(r) == multiset(s) + multiset{x}
  {
    if |s| == 0 then [x]
    else if LocationCompare(x, s[0]) <= 0 then
      forall y | y in s
        ensures LocationCompare(x, y) <= 0
      {
        if y != s[0] {
          LocationCompareTransitive(x, s[0], y);
        }
      }
      ConsSortedLocations(x, s);
      [x] + s
    else
      var rest := InsertLocation(x, s[1..]);
      LocationCompareAntisymmetric(x, s[0]);
      forall y | y in rest
        ensures LocationCompare(s[0], y) <= 0
      {
        assert y in multiset(rest);
      }
      ConsSortedLocations(s[0], rest);
      assert s == [s[0]] + s[1..];
      [s[0]] + rest
  }

  /** `locations.sort!` with the open-before-closed, then-by-name block. */
  function SortLocations(s: seq<Location>): (r: seq<Location>)
    ensures multiset(r) == multiset(s)
    ensures SortedLocations(r)
  {
    if |s| == 0 then []
    else
      assert s == [s[0]] + s[1..];
      InsertLocation(s[0], SortLocations(s[1..]))
  }

  /** What the sort promises in the source's terms: every open location
      precedes every closed one, and within each group names ascend. */
  lemma SortLocationsOrder(s: seq<Location>)
    ensures var r := SortLocations(s);
      && (forall i, j :: 0 <= i < j < |r| && r[j].Open() ==> r[i].Open())
      && (forall i, j :: 0 <= i < j < |r| && r[i].Closed() == r[j].Closed() ==>
            Cmp(r[i].name, r[j].name) <= 0)
  {
    var r := SortLocations(s);
    forall i, j | 0 <= i < j < |r|
      ensures r[j].Open() ==> r[i].Open()
      ensures r[i].Closed() == r[j].Closed() ==> Cmp(r[i].name, r[j].name) <= 0
    {
      SortedLocationsOrder(r, i, j);
    }
  }

  /** The registry once the legend has been resolved into a fresh one. */
  function LegendRegistry(legend: seq<string>): (reg: Registry)
    ensures Valid(reg)
    ensures reg.allergens.Keys == KeysOf(legend)
  {
    EmptyRegistryValid();
    ResolveAll(EmptyRegistry, legend).registry
  }

  /** The locations extracted from a page, before sorting. */
  function Extracted(page: Page): (r: LocationsResult)
    ensures Valid(r.registry)
    ensures r.registry.allergens.Keys == KeysOf(page.legend) + ReferencedKeys(page.locations)
    ensures Extends(LegendRegistry(page.legend), r.registry)
  {
    ExtractLocations(LegendRegistry(page.legend), page.locations)
  }

  /** The invariants a returned manifest satisfies: every allergen of
      every item is one of the manifest's allergens, ids and shortcodes are
      unique among them, each item's allergens ascend by id, and the
      locations are sorted. */
  ghost predicate WellFormed(m: Manifest) {
    && (forall loc, item, a :: loc in m.locations && item in loc.items && a in item.allergens ==>
          a in m.allergens)
    && (forall a, b :: a in m.allergens && b in m.allergens && a.id == b.id ==> a == b)
    && (forall a, b :: a in m.allergens && b in m.allergens && a.shortcode == b.shortcode ==> a == b)
    && (forall loc, item :: loc in m.locations && item in loc.items ==> SortedById(item.allergens))
    && SortedLocations(m.locations)
  }

  /** The manifest assembled from a parsed page: the extracted locations,
      sorted, and every allergen in the registry (`@allergen_map.values`),
      legend-only ones included. */
  function Assemble(page: Page): (m: Manifest)
    ensures WellFormed(m)
    ensures multiset(m.locations) == multiset(Extracted(page).locations)
    ensures |m.locations| == |Titled(page.locations)|
    ensures Ids(m.allergens) == KeysOf(page.legend) + ReferencedKeys(page.locations)
  {
    EmptyRegistryValid();
    var extracted := Extracted(page);
    var m := Manifest(SortLocations(extracted.locations), extracted.registry.allergens.Values);
    ManifestFromRegistry(extracted.registry, Titled(page.locations), extracted.locations, m);
    assert |m.locations| == |extracted.locations| by {
      assert |multiset(m.locations)| == |multiset(extracted.locations)|;
    }
    m
  }

  /** `ManifestFetcher#fetch`, from the response onward. */
  function Fetch(resp: Response): (r: Result<Manifest, FetchError>)
    ensures r == Failure(HttpError(resp.code)) <==> !IsSuccess(resp.code)
    ensures r == Failure(NoLocations) <==> IsSuccess(resp.code) && |resp.page.locations| == 0
    ensures r.Success? <==> IsSuccess(resp.code) && |resp.page.locations| > 0
    ensures IsSuccess(resp.code) && |resp.page.locations| > 0 ==> r == Success(Assemble(resp.page))
    ensures r.Success? ==> WellFormed(r.value)
    ensures r.Success? ==> multiset(r.value.locations) == multiset(Extracted(resp.page).locations)
    ensures r.Success? ==> |r.value.locations| == |Titled(resp.page.locations)|
    ensures r.Success? ==>
      Ids(r.value.allergens) == KeysOf(resp.page.legend) + ReferencedKeys(resp.page.locations)
    ensures r.Success? ==>
      forall a :: a in r.value.allergens <==> Registered(Extracted(resp.page).registry, a)
  {
    if !IsSuccess(resp.code) then Failure(HttpError(resp.code))
    else if |resp.page.locations| == 0 then Failure(NoLocations)
    else AssembledRegistered(resp.page); Success(Assemble(resp.page))
  }

  /** Each extracted location comes from the titled record at the same
      position, built against the final registry. */
  lemma ExtractedFromRecords(page: Page)
    ensures var e := Extracted(page);
      && |e.locations| == |Titled(page.locations)|
      && forall i :: 0 <= i < |e.locations| ==> LocationFrom(Titled(page.locations)[i], e.locations[i], e.registry)
  {
    EmptyRegistryValid();
  }

  /** Every location built from a record carries only allergens the
      registry stores, each item's sorted by id. */
  lemma LocationFromRegistered(rec: LocationRecord, loc: Location, reg: Registry)
    requires LocationFrom(rec, loc, reg)
    ensures forall item :: item in loc.items ==> ItemRegistered(reg, item) && SortedById(item.allergens)
  {
    forall item | item in loc.items
      ensures ItemRegistered(reg, item) && SortedById(item.allergens)
    {
      var i :| 0 <= i < |loc.items| && loc.items[i] == item;
      assert ItemFrom(rec.items[i], item, reg);
    }
  }

  /** A manifest made from a valid registry's allergens and a permutation
      of locations built against that registry is well formed. */
  lemma ManifestFromRegistry(reg: Registry, recs: seq<LocationRecord>, locs: seq<Location>, m: Manifest)
    requires Valid(reg)
    requires |locs| == |recs|
    requires forall i :: 0 <= i < |locs| ==> LocationFrom(recs[i], locs[i], reg)
    requires multiset(m.locations) == multiset(locs) && SortedLocations(m.locations)
    requires m.allergens == reg.allergens.Values
    ensures WellFormed(m)
    ensures Ids(m.allergens) == reg.allergens.Keys
  {
    forall loc, item | loc in m.locations && item in loc.items
      ensures ItemRegistered(reg, item) && SortedById(item.allergens)
    {
      assert loc in multiset(locs);
      var i :| 0 <= i < |locs| && locs[i] == loc;
      LocationFromRegistered(recs[i], loc, reg);
    }
    forall loc, item, a | loc in m.locations && item in loc.items && a in item.allergens
      ensures a in m.allergens
    {
      assert Registered(reg, a);
    }
    forall a | a in m.allergens
      ensures a.id in reg.allergens && reg.allergens[a.id] == a
    {
      var k :| k in reg.allergens && reg.allergens[k] == a;
    }
    forall k | k in reg.allergens
      ensures k in Ids(m.allergens)
    {
      assert reg.allergens[k] in m.allergens;
    }
  }

  /** The manifest's allergens are exactly the entries of the final
      registry, each stored under its own id. */
  lemma AssembledRegistered(page: Page)
    ensures forall a :: a in Assemble(page).allergens <==> Registered(Extracted(page).registry, a)
  {
    var reg := Extracted(page).registry;
    forall a | a in Assemble(page).allergens
      ensures Registered(reg, a)
    {
      var k :| k in reg.allergens && reg.allergens[k] == a;
    }
  }

  /** Legend entries are resolved before any location, so the allergen of
      a legend key, shortcode included, depends on the legend alone and not
      on what the locations reference. */
  lemma LegendShortcodesFixed(p1: Page, p2: Page, key: string)
    requires p1.legend == p2.legend && key in KeysOf(p1.legend)
    ensures key in Extracted(p1).registry.allergens && key in Extracted(p2).registry.allergens
    ensures Extracted(p1).registry.allergens[key] == Extracted(p2).registry.allergens[key]
  {
    var legend := LegendRegistry(p1.legend);
    assert key in legend.allergens;
    assert Extends(legend, Extracted(p1).registry);
    assert Extends(legend, Extracted(p2).registry);
  }

  /** The number of closed locations in a list. */
  function CountClosed(s: seq<Location>): nat {
    if |s| == 0 then 0 else (if s[0].Closed() then 1 else 0) + CountClosed(s[1..])
  }

  /** The number of titled records that yield a closed location: those with
      the closed marker, and open ones without menu items. */
  function CountClosedRecords(recs: seq<LocationRecord>): nat {
    if |recs| == 0 then 0
    else (if recs[0].closed || |recs[0].items| == 0 then 1 else 0) + CountClosedRecords(recs[1..])
  }

  /** Removing the element at `k` removes one copy of it from the multiset. */
  lemma MultisetRemoveAt(b: seq<Location>, k: int)
    requires 0 <= k < |b|
    ensures multiset(b[..k] + b[k + 1..]) == multiset(b) - multiset{b[k]}
  {
    assert b == b[..k] + [b[k]] + b[k + 1..];
  }

  /** Removing the element at `k` lowers the closed count by its share. */
  lemma {:induction false} CountClosedRemoveAt(b: seq<Location>, k: int)
    requires 0 <= k < |b|
    ensures CountClosed(b) == CountClosed(b[..k] + b[k + 1..]) + (if b[k].Closed() then 1 else 0)
    decreases k
  {
    var rest := b[..k] + b[k + 1..];
    if k == 0 {
      assert rest == b[1..];
    } else {
      var tail := b[1..];
      CountClosedRemoveAt(tail, k - 1);
      assert tail[k - 1] == b[k];
      assert rest[0] == b[0];
      assert rest[1..] == tail[..k - 1] + tail[k..];
    }
  }

  /** Reordering locations does not change how many are closed. */
  lemma {:induction false} CountClosedPermutation(a: seq<Location>, b: seq<Location>)
    requires multiset(a) == multiset(b)
    ensures CountClosed(a) == CountClosed(b)
    decreases |a|
  {
    if |a| > 0 {
      assert a[0] in multiset(b);
      var k :| 0 <= k < |b| && b[k] == a[0];
      MultisetRemoveAt(b, k);
      assert a == [a[0]] + a[1..];
      assert multiset(a[1..]) == multiset(a) - multiset{a[0]};
      CountClosedPermutation(a[1..], b[..k] + b[k + 1..]);
      CountClosedRemoveAt(b, k);
    } else {
      assert |multiset(b)| == 0;
    }
  }

  /** Locations built from records are closed exactly as often as the
      records predict. */
  lemma {:induction false} CountClosedBuilt(recs: seq<LocationRecord>, locs: seq<Location>, reg: Registry)
    requires |recs| == |locs|
    requires forall i :: 0 <= i < |locs| ==> LocationFrom(recs[i], locs[i], reg)
    ensures CountClosed(locs) == CountClosedRecords(recs)
    decreases |recs|
  {
    if |recs| > 0 {
      assert LocationFrom(recs[0], locs[0], reg);
      assert forall i :: 0 <= i < |locs| - 1 ==> locs[1..][i] == locs[i + 1] && recs[1..][i] == recs[i + 1];
      CountClosedBuilt(recs[1..], locs[1..], reg);
    }
  }

  /** A page whose N location records include M titled records with the
      closed marker or without items yields a manifest with one location
      per titled record, M of them closed. */
  lemma ManifestClosedCount(page: Page)
    ensures var m := Assemble(page);
      && |m.locations| == |Titled(page.locations)|
      && CountClosed(m.locations) == CountClosedRecords(Titled(page.locations))
  {
    var e := Extracted(page);
    ExtractedFromRecords(page);
    CountClosedBuilt(Titled(page.locations), e.locations, e.registry);
    CountClosedPermutation(Assemble(page).locations, e.locations);
  }
}
