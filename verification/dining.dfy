/** The immutable value classes of the dining manifest: `Allergen`, `Item`,
    `Location` and `Manifest`, with the comparisons the fetcher sorts by. */
module Dining {
  import opened RubyString

  /** A dietary category. `id` is its canonical lowercase key ("gluten"),
      `shortcode` its display code, unique within one fetch. */
  datatype Allergen = Allergen(id: string, shortcode: string) {

    /** `Allergen#<=>`: compares by `id` only. */
    function Compare(other: Allergen): int {
      Cmp(id, other.id)
    }

    /** `Allergen#==`: `(self <=> other) == 0`. */
    predicate Equals(other: Allergen) {
      Compare(other) == 0
    }
  }

  /** A menu entry: its stripped name and its allergens, held in ascending
      order of `id` with no `id` twice (the sorted, de-duplicated contents
      of the Ruby `Set`). */
  datatype Item = Item(name: string, allergens: seq<Allergen>)

  /** A servery: its name and its menu, in page order. */
  datatype Location = Location(name: string, items: seq<Item>) {

    /** `Location#closed?`: a location with no items is closed. */
    predicate Closed() {
      |items| == 0
    }

    /** `Location#open?`. */
    predicate Open() {
      !Closed()
    }
  }

  /** `closed?` and `open?` are complementary, and a location is closed
      exactly when its menu is empty. */
  lemma ClosedIffNoItems(loc: Location)
    ensures loc.Closed() <==> loc.items == []
    ensures loc.Open() <==> !loc.Closed()
    ensures loc.Open() <==> |loc.items| > 0
  {
  }

  /** The snapshot one fetch returns: sorted locations and every allergen
      the fetch came across. */
  datatype Manifest = Manifest(locations: seq<Location>, allergens: set<Allergen>)

  /** Ruby's `==` on allergens holds exactly when the ids are equal; the
      shortcode plays no part. */
  lemma EqualsIffSameId(a: Allergen, b: Allergen)
    ensures a.Equals(b) <==> a.id == b.id
    ensures a.Equals(b) <==> b.Equals(a)
  {
    CmpZeroIffEqual(a.id, b.id);
    CmpAntisymmetric(a.id, b.id);
  }

  /** The block passed to `locations.sort!`: open locations before closed
      ones, then by name. */
  function LocationCompare(a: Location, b: Location): int {
    if a.Closed() && b.Open() then 1
    else if a.Open() && b.Closed() then -1
    else Cmp(a.name, b.name)
  }

  ghost predicate SortedLocations(s: seq<Location>) {
    forall i, j :: 0 <= i < j < |s| ==> LocationCompare(s[i], s[j]) <= 0
  }

  /** The comparator is a total preorder: swapping the arguments flips
      the sign... */
  lemma LocationCompareAntisymmetric(a: Location, b: Location)
    ensures LocationCompare(a, b) == -LocationCompare(b, a)
  {
    CmpAntisymmetric(a.name, b.name);
  }

  /** ... and "not after" is transitive. */
  lemma LocationCompareTransitive(a: Location, b: Location, c: Location)
    requires LocationCompare(a, b) <= 0 && LocationCompare(b, c) <= 0
    ensures LocationCompare(a, c) <= 0
  {
    if a.Closed() == b.Closed() && b.Closed() == c.Closed() {
      CmpTransitive(a.name, b.name, c.name);
    }
  }

  /** In a sorted sequence every open location precedes every closed one,
      and within each group names ascend. */
  lemma SortedLocationsOrder(s: seq<Location>, i: int, j: int)
    requires SortedLocations(s) && 0 <= i < j < |s|
    ensures s[j].Open() ==> s[i].Open()
    ensures s[i].Closed() == s[j].Closed() ==> Cmp(s[i].name, s[j].name) <= 0
  {
    assert LocationCompare(s[i], s[j]) <= 0;
  }
}
