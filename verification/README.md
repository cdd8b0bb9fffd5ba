# rice-dining manifest fetcher, modelled in Dafny

This project models the core of the `rice-dining` gem in Dafny. The gem
fetches the Rice University dining page and turns it into a `Manifest` of
dining locations, their menu items and the allergens in each item. Once the
HTTP request and the Nokogiri HTML queries are set aside, what remains is
modelled here:

- **Value classes.** `Allergen` compares and tests equality by `id` only.
  `Item` holds a name and its allergens. `Location` holds a name and items,
  and is *closed* when it has no items. `Manifest` holds the locations and
  the allergens.
- **Allergen registry** (`ManifestFetcher#allergen_cleanup` and
  `#allergen_reference`). It turns a CSS class string such as `"diet Gluten"`
  into the key `gluten` and keeps one `Allergen` per key. Each new key gets a
  shortcode that no other key of the same fetch uses. The shortcode is the
  first letter; if that is used, the letter in upper case; if that is used
  too, the first unused word of the `String#succ` chain that continues from
  the lowercase letter (`g`, `G`, `h`, `i`, …, `z`, `aa`, …).
- **The post-parse part of `fetch`.** Legend entries are resolved first,
  which fixes their shortcodes. Having no location nodes is an error.
  Untitled locations are skipped. Names are stripped. Closed locations get no
  items. Each item's allergens are sorted by id and de-duplicated. Locations
  are sorted open-before-closed, then by name. The manifest carries every
  allergen the registry holds.

The two Ruby instance variables `@allergen_map` and `@allergen_shortcodes`
become one immutable `Registry` value that pure functions thread through.
`Fetch` starts every call from `EmptyRegistry`, which matches the two
`clear` calls at the start of `fetch`. The HTML document becomes a `Page`
record:

- the class strings of the legend nodes;
- one `LocationRecord` per location node, holding the title text (if any),
  whether the closed marker is present, and the items;
- for each item, its text and the class strings of the allergen nodes
  under its parent.

The HTTP response becomes a status code plus that page.

Modules, one per file:
- `Wrappers`: `Option` and `Result`.
- `RubyString`: `strip`, ASCII `downcase`/`swapcase`, and `String#<=>`.
- `Shortcode`: `String#succ` on lowercase words. It also holds a
  bijective base-26 `Rank`/`Unrank` pair that serves as the reference
  definition of `succ`.
- `Dining`: the value classes and comparators.
- `AllergenRegistry`: cleanup, the shortcode choice, and `Resolve`.
- `ManifestFetcher`: extraction, sorting and `Fetch`.
- `Scenarios`: worked examples.
- `AsWritten`: the as-written behaviour behind the finding below.

The pipeline functions (`ResolveAll`, `ExtractItems`, `ExtractLocations`, …)
take the registry invariant `Valid` as a precondition. That invariant says:

- every stored allergen sits under its own id;
- the used set is exactly the stored shortcodes;
- distinct keys have distinct shortcodes.

`fetch` calls these steps only on the registry it cleared at lines 104-105
of `lib/rice/dining.rb`. Since the clearing, only `allergen_reference` has
changed that registry. `Resolve`, the corrected model of
`allergen_reference`, needs no precondition and preserves `Valid`.

`Resolve` returns the new allergen for a key seen for the first time.
The Ruby text returns the used-shortcode set there instead (see
"## Findings"). The pipeline from `ExtractItem` up to `Fetch` is built on
the corrected return value. Module `AsWritten` follows the text as it
stands, from `allergen_reference` up to `FetchAsWritten`, and proves how
the two relate. The code as written returns a manifest exactly when the
status is 2xx, there are location nodes, and every allergen named by an
item of a titled open location is listed in the legend. That manifest is
the one `Fetch` returns.

Two consequences of the code:
- `closed?` is "has no items". So a location without the closed marker but
  with no menu items is closed too (`CountClosedRecords` counts both kinds).
- Shortcodes are not always a single character. Once a letter, its upper
  case and the rest of its chain up to `z` are taken, the code continues
  with `aa`, `ab`, … (`Succ`, `ChainCarriesPastZ`).

## Model

| member | source | states |
|---|---|---|
| RubyString.Strip | lib/rice/dining.rb:129-130 | the stripped name is a contiguous slice of the text with only whitespace/NUL cut from either end, and it neither starts nor ends with such a character (empty only when the text is all whitespace) |
| RubyString.StripIdempotent | lib/rice/dining.rb:142 | stripping an already stripped name changes nothing |
| RubyString.CmpZeroIffEqual | lib/rice/dining.rb:89 | `<=>` on ids/names returns 0 exactly for equal strings |
| RubyString.CmpAntisymmetric | lib/rice/dining.rb:161 | swapping the operands of `<=>` negates the result |
| RubyString.CmpTransitive | lib/rice/dining.rb:161 | "not after" under `<=>` is transitive |
| RubyString.CmpStrictTransitive | lib/rice/dining.rb:89 | "strictly before" chained with "not after" is strictly before |
| RubyString.CmpIsLexicographic | lib/rice/dining.rb:161 | `<=>` puts `a` first exactly when `a` is a proper prefix of `b` or has a smaller character at the first difference |
| Shortcode.Succ | lib/rice/dining.rb:184 | `succ` on a lowercase word yields a lowercase word whose rank in "a".."z","aa",.. is one more |
| Shortcode.SuccIsNextWord | lib/rice/dining.rb:184 | a word is `succ` of a lowercase word exactly when its rank in the counting sequence is one more |
| Shortcode.RankUnrank | lib/rice/dining.rb:184 | ranking the word at position n gives back n |
| Shortcode.UnrankRank | lib/rice/dining.rb:184 | every lowercase word is the word at its own rank |
| Shortcode.RankInjective | lib/rice/dining.rb:183-185 | distinct words have distinct ranks, so the `succ` chain never repeats a word |
| Shortcode.NextFree | lib/rice/dining.rb:183-185 | the search loop terminates with an unused word at or after its start, and every word it passed over is used |
| Dining.EqualsIffSameId | lib/rice/dining.rb:80-90 | `Allergen#==` holds exactly when ids are equal, whatever the shortcodes, and is symmetric |
| Dining.ClosedIffNoItems | lib/rice/dining.rb:48-54 | a location is closed exactly when it has no items, and open exactly when it is not closed, i.e. when it has at least one item |
| Dining.LocationCompareAntisymmetric | lib/rice/dining.rb:155-163 | the sort block returns the negated result for swapped arguments |
| Dining.LocationCompareTransitive | lib/rice/dining.rb:155-163 | the sort block's "not after" relation is transitive, so it is a total preorder |
| Dining.SortedLocationsOrder | lib/rice/dining.rb:155-163 | in a list sorted by the block, open locations come before closed ones and names ascend within each group |
| AllergenRegistry.Cleanup | lib/rice/dining.rb:196-200 | a returned key is a non-empty lowercase ASCII word |
| AllergenRegistry.CleanupSound | lib/rice/dining.rb:197-199 | every returned key is the lowercased letter run of a match of `\Adiet\s+[a-z]+` (case-insensitive) |
| AllergenRegistry.CleanupComplete | lib/rice/dining.rb:197-199 | every such match makes cleanup return its lowercased maximal letter run |
| AllergenRegistry.CleanupMatchRule | lib/rice/dining.rb:196-200 | cleanup returns `key` if and only if the pattern matches with `key` the lowercased letter run |
| AllergenRegistry.CleanupNoMatch | lib/rice/dining.rb:197-198 | cleanup returns nil if and only if the pattern does not match |
| AllergenRegistry.EmptyRegistryValid | lib/rice/dining.rb:104-105 | the cleared registry satisfies the registry invariant |
| AllergenRegistry.ChooseShortcode | lib/rice/dining.rb:178-186 | a new key gets its first letter if unused, else that letter upper-cased if unused, else the first unused word after the letter in the `succ` chain; never a used code |
| AllergenRegistry.InsertKeepsValid | lib/rice/dining.rb:188-190 | storing a new key under an unused shortcode keeps ids equal to keys, the used set equal to the stored shortcodes, and shortcodes distinct |
| AllergenRegistry.Resolve | lib/rice/dining.rb:172-194 | a non-matching class returns nil and leaves the state unchanged; a known key returns the stored allergen and leaves the state unchanged; a new key stores and returns `Allergen(key, ChooseShortcode(..))` and adds only its code to the used set; the invariant is preserved |
| AllergenRegistry.ResolveIdempotent | lib/rice/dining.rb:177-192 | resolving the same class a second time returns the same allergen and does not modify the registry |
| AllergenRegistry.SameKeySameAllergen | lib/rice/dining.rb:174-192 | two class strings with the same key ("diet Gluten", "diet gluten") yield the same allergen, shortcode included |
| AllergenRegistry.ValidRegistryAllergensDistinct | lib/rice/dining.rb:80-94 | among a fetch's allergens, equal ids, equal shortcodes and Ruby `==` each coincide with being the same allergen |
| ManifestFetcher.ResolveStep | lib/rice/dining.rb:144-145 | one reference adds at most its key, changes no stored entry, and any allergen it returns is the one stored under its id |
| ManifestFetcher.ResolveAll | lib/rice/dining.rb:117-119 | resolving a list of classes adds exactly their keys, keeps old entries and the invariant, and the non-nil results carry exactly those keys, each being the stored allergen |
| ManifestFetcher.InsertById | lib/rice/dining.rb:148 | inserting into an id-sorted list keeps it strictly sorted, loses nothing, and adds the allergen unless its id is present |
| ManifestFetcher.SortById | lib/rice/dining.rb:148 | `sort` then `Set` yields a strictly id-ascending list whose ids are exactly the input's ids and whose elements come from the input |
| ManifestFetcher.SortByIdKeepsRegistered | lib/rice/dining.rb:148 | for allergens from the registry the sorted list holds exactly the input allergens |
| ManifestFetcher.ExtractItem | lib/rice/dining.rb:141-148 | an item is named by its stripped text, and its allergens are id-sorted, stored in the registry, and have exactly the keys its classes name |
| ManifestFetcher.ExtractItems | lib/rice/dining.rb:138-149 | one item per menu-item node, in order, each as above; the registry gains exactly the items' keys |
| ManifestFetcher.Titled | lib/rice/dining.rb:127-128 | the kept records are exactly the titled ones, in document order (a subsequence of the input), each as often as it occurs: one per record minus the untitled ones |
| ManifestFetcher.ExtractLocation | lib/rice/dining.rb:126-152 | an untitled location yields nothing and leaves the registry alone; a closed one yields the stripped name with zero items; an open one yields one item per menu item |
| ManifestFetcher.ExtractLocations | lib/rice/dining.rb:122-153 | one location per titled record, in order, each built from its record; the registry gains exactly the keys of titled open locations' items |
| ManifestFetcher.InsertLocation | lib/rice/dining.rb:155-163 | inserting into a list sorted by the block keeps it sorted and adds exactly the one location |
| ManifestFetcher.SortLocations | lib/rice/dining.rb:155-163 | the sorted list is a permutation of the input, sorted by the block |
| ManifestFetcher.SortLocationsOrder | lib/rice/dining.rb:155-163 | after the sort every open location precedes every closed one and names are non-decreasing within each group |
| ManifestFetcher.LegendRegistry | lib/rice/dining.rb:116-119 | the registry after the legend is valid and holds exactly the legend's keys |
| ManifestFetcher.Extracted | lib/rice/dining.rb:121-153 | after extraction the registry is valid, extends the legend registry, and holds exactly the legend keys plus the keys of titled open locations' items |
| ManifestFetcher.Assemble | lib/rice/dining.rb:155-165 | the manifest is well formed, its locations are a permutation of the extracted ones, one per titled record, and its allergen ids are the legend keys plus the referenced keys |
| ManifestFetcher.Fetch | lib/rice/dining.rb:103-170 | a non-2xx status fails with that status; a 2xx page with no location nodes fails with "no locations"; a 2xx page with location nodes always succeeds, with the assembled manifest: well formed, a permutation of the extracted locations, and exactly the final registry's allergens (legend shortcodes included) |
| ManifestFetcher.ExtractedFromRecords | lib/rice/dining.rb:125-153 | the i-th extracted location is built from the i-th titled record |
| ManifestFetcher.LocationFromRegistered | lib/rice/dining.rb:143-151 | a built location's items carry only stored allergens, each list id-sorted |
| ManifestFetcher.ManifestFromRegistry | lib/rice/dining.rb:165 | every item allergen is a manifest allergen; manifest ids and shortcodes are unique; item allergens are id-sorted; the manifest ids are the registry keys |
| ManifestFetcher.AssembledRegistered | lib/rice/dining.rb:165 | the manifest allergens are exactly the entries of the final registry, each the one stored under its id |
| ManifestFetcher.LegendShortcodesFixed | lib/rice/dining.rb:116-119 | two pages with the same legend give every legend key the same allergen and shortcode, whatever their locations reference |
| ManifestFetcher.CountClosedPermutation | lib/rice/dining.rb:155 | `sort!` does not change how many locations are closed |
| ManifestFetcher.CountClosedBuilt | lib/rice/dining.rb:132-151 | the built locations are closed exactly for the records with the closed marker or without menu items |
| ManifestFetcher.ManifestClosedCount | lib/rice/dining.rb:125-163 | a manifest has one location per titled record, and the number closed equals the number of titled records with the closed marker or no items |
| Scenarios.CleanupWord | lib/rice/dining.rb:197-199 | "diet " followed by a letter word yields that word in lower case |
| Scenarios.GarlicCode | lib/rice/dining.rb:179-181 | with "g" and "d" used, key garlic gets "G" |
| Scenarios.LegendExample | lib/rice/dining.rb:116-119 | the legend "diet Gluten", "diet gluten", "diet Dairy", "diet Garlic" yields gluten/g, dairy/d, garlic/G |
| Scenarios.ChainSkipsUpperCase | lib/rice/dining.rb:183-185 | with "g", "G", "h" used the chain gives "i": upper-case letters after the first are never tried |
| Scenarios.ChainCarriesPastZ | lib/rice/dining.rb:183-185 | with "z" and "Z" used the chain gives "aa" |
| AsWritten.ReferenceAsWritten | lib/rice/dining.rb:172-194 | the literal method updates the registry exactly like `Resolve`, and whenever it returns an allergen or nil it is the one `Resolve` returns |
| AsWritten.AsWrittenAgreesOnKnownKeys | lib/rice/dining.rb:191-192 | for non-matching classes and known keys the literal return value equals the corrected one |
| AsWritten.AsWrittenNewKeyReturnsSet | lib/rice/dining.rb:188-190 | for a new key the literal method returns the used-shortcode set, where the corrected one returns an allergen |
| AsWritten.ItemNewAsWritten | lib/rice/dining.rb:148 | building an item as written succeeds exactly when no kept value is a shortcode set, and then carries the kept allergens in strictly ascending id order, one per id |
| AsWritten.ReferencesAsWrittenRegistry | lib/rice/dining.rb:117-119 | as written, resolving a list of classes updates the registry exactly as the corrected loop does, so the legend pass builds the same registry |
| AsWritten.ReferencesKnown | lib/rice/dining.rb:143-145 | when every key the classes name is already stored, the literal code returns only allergens, changes nothing, and keeps exactly the allergens the corrected loop finds |
| AsWritten.ReferencesUnknown | lib/rice/dining.rb:143-145 | when some class names a key not yet stored, the literal code hands the item a shortcode set |
| AsWritten.ExtractItemAsWritten | lib/rice/dining.rb:140-148 | one item as written is built exactly when all its keys are already stored, and it is then the corrected item, with the registry unchanged |
| AsWritten.ExtractItemsAsWritten | lib/rice/dining.rb:138-149 | the item loop as written completes exactly when every item's keys are already stored, and then yields the corrected items |
| AsWritten.ExtractLocationsAsWritten | lib/rice/dining.rb:125-153 | the location loop as written completes exactly when the keys of all titled open locations' items are already stored, and then yields the corrected locations |
| AsWritten.FetchAsWritten | lib/rice/dining.rb:103-170 | `fetch` as written returns a manifest exactly when the status is 2xx, there are location nodes, and every item allergen of a titled open location is in the legend; that manifest is the one `Fetch` returns |
| AsWritten.UnlistedAllergenBreaksItem | lib/rice/dining.rb:143-148 | with an empty legend, an item with class "diet Gluten" receives the set {"g"} and building it raises |
| AsWritten.UnlistedAllergenBreaksFetch | lib/rice/dining.rb:103-170 | a 2xx page with an empty legend and one item "Pasta" of class "diet Gluten" makes `fetch` as written raise, while `Fetch` returns a manifest |
| AsWritten.UnlistedAllergenCorrected | lib/rice/dining.rb:140-148 | the corrected model builds that item as "Pasta" with the gluten/g allergen |

## Left out

- HTTP: the `Net::HTTP` request and the User-Agent header are network I/O (lines 107-113). The response is a status code plus the page it parses to. `Net::HTTPSuccess` is modelled as the 2xx range.
- HTML: Nokogiri parsing and the CSS selectors are a foreign library. They are replaced by `Page`, `LocationRecord` and `ItemRecord`. The record holds what each query would have returned, including the text of the first title node and the allergen classes found under an item's parent.
- Constructor checks: the `freeze`, `dup` and `is_a?`/`ArgumentError` checks in the constructors are left out. Immutable datatypes and static types make them unnecessary. The one place the checks matter, `Item.new` given a non-allergen, is modelled in `AsWritten.ItemNewAsWritten`.
- `Allergen#hash` and `Set` identity: Ruby's `Set` de-duplicates by `hash`/`eql?`, and `eql?` is object identity here. The model keeps an item's allergens as a sequence sorted by id and de-duplicated by id. It keeps the manifest's allergens as a `set`. Because the registry hands out one allergen per key, de-duplicating by id keeps exactly the same allergens (`SortByIdKeepsRegistered`).
- `Allergen#!=` is `Equals` negated and is not modelled separately.
- Error messages: the text of the messages at lines 124 and 168 is not modelled.
- FetchError: `HttpError(code)` and `NoLocations` model the two failures the code evidently intends to report. No file of this model defines `ManifestCreateError`, so as the text stands both `raise` lines would fail with a `NameError`, which carries no status code. Only `lib/rice/dining.rb` and `lib/rice/dining/version.rb` are part of this model, so the definition may live elsewhere. `FetchAsWritten` does not distinguish kinds of raised error.
- Fetch: models `fetch` with the corrected `allergen_reference`. On a page where an item of a titled open location names an allergen missing from the legend, the code as written raises but `Fetch` returns a manifest (`AsWritten.FetchAsWritten`, `AsWritten.UnlistedAllergenBreaksFetch`).
- `lib/rice/dining/version.rb` holds only version and identity strings. It is not part of this model.
- `Rice::Dining.manifest` only creates a fetcher and calls `fetch`, which is `Fetch`.
- Mutable-instance sharing across threads is not modelled. Each `Fetch` starts from `EmptyRegistry`, so calls cannot interfere.
- SortLocations: Ruby's `sort!` is not stable. The model uses a stable insertion sort and claims only what any correct sort guarantees: a permutation, sorted by the block. Locations that compare equal (same open state and same name) may be ordered differently in Ruby.
- Cleanup: `[a-z]` under `/i` is modelled as the 52 ASCII letters. Ruby's Unicode case folding may also admit the Kelvin sign and the long s. These are not modelled. `downcase` is modelled for ASCII only, which is all that reaches it.
- Strip: models `String#strip` as removing NUL, `\t`, `\n`, `\v`, `\f`, `\r` and space from both ends. Other Unicode spaces, such as a no-break space, are kept, as Ruby keeps them.
- Succ: modelled only on non-empty lowercase ASCII words. Those are the only arguments the shortcode search gives it.

## Findings

| source | as written | input that shows it | evidently intended | confidence | as-written member | corrected member |
|---|---|---|---|---|---|---|
| lib/rice/dining.rb:177-193 | A Ruby method returns the value of its last expression. For a key seen for the first time, that expression adds the shortcode to the used set, so `allergen_reference` returns the used-shortcode set, not the new `Allergen`. The legend loop ignores the return value, so only items expose this. An item whose allergen class names a key the legend did not list gets the set in its allergen list, and `sort` or `Item.new` then raises. | A 2xx page with an empty legend and one titled open location with one item "Pasta" of class "diet Gluten". As written, the item receives `{"g"}`, building it raises, and `fetch` raises. Corrected, the item carries gluten/g and a manifest is returned. | Return the newly created allergen, as the known-key branch returns the stored one. | high; not executed | AsWritten.UnlistedAllergenBreaksFetch | AllergenRegistry.Resolve |
