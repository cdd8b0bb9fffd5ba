/** The allergen registry of `ManifestFetcher`: `allergen_cleanup` turns a
    CSS class string into a key, and `allergen_reference` interns one
    `Allergen` per key, giving each new key a shortcode no other key of the
    same fetch has. The two instance variables `@allergen_map` and
    `@allergen_shortcodes` become a `Registry` value threaded through pure
    functions. */
module AllergenRegistry {
  import opened Wrappers
  import opened RubyString
  import opened Shortcode
  import opened Dining

  /** A canonical allergen key: a non-empty lowercase ASCII word. */
  predicate IsKey(k: string) {
    |k| > 0 && IsWord(k)
  }

  /** The pattern `/\Adiet\s+(?<type>[a-z]+)/i` matches `cls` with the
      `type` group spanning `cls[i..j]`. The group is maximal because
      `[a-z]+` is greedy and nothing after it constrains the match. */
  ghost predicate DietMatch(cls: string, i: int, j: int) {
    && 4 < i < j <= |cls|
    && Downcase(cls[..4]) == "diet"
    && (forall k :: 4 <= k < i ==> IsRegexSpace(cls[k]))
    && (forall k :: i <= k < j ==> IsLetter(cls[k]))
    && (j == |cls| || !IsLetter(cls[j]))
  }

  /** `allergen_cleanup`: the lowercased `type` group, or `None` when the
      class string does not match. */
  function Cleanup(cls: string): (r: Option<string>)
    ensures r.Some? ==> IsKey(r.value)
  {
    if |cls| < 4 || Downcase(cls[..4]) != "diet" then None
    else
      var ws := Span(cls[4..], IsRegexSpace);
      var rest := cls[4 + ws..];
      var n := Span(rest, IsLetter);
      if ws == 0 || n == 0 then None else Some(Downcase(rest[..n]))
  }

  /** Every key `Cleanup` yields is the lowercased letter run of a match. */
  lemma CleanupSound(cls: string)
    requires Cleanup(cls).Some?
    ensures exists i, j :: DietMatch(cls, i, j) && Cleanup(cls).value == Downcase(cls[i..j])
  {
    var ws := Span(cls[4..], IsRegexSpace);
    var rest := cls[4 + ws..];
    var n := Span(rest, IsLetter);
    assert rest[..n] == cls[4 + ws..4 + ws + n];
    forall k | 4 <= k < 4 + ws
      ensures IsRegexSpace(cls[k])
    {
      assert cls[k] == cls[4..][k - 4];
    }
    forall k | 4 + ws <= k < 4 + ws + n
      ensures IsLetter(cls[k])
    {
      assert cls[k] == rest[k - 4 - ws];
    }
    if 4 + ws + n < |cls| {
      assert cls[4 + ws + n] == rest[n];
    }
    assert DietMatch(cls, 4 + ws, 4 + ws + n);
  }

  /** Every match makes `Cleanup` yield its lowercased letter run. */
  lemma CleanupComplete(cls: string, i: int, j: int)
    requires DietMatch(cls, i, j)
    ensures Cleanup(cls) == Some(Downcase(cls[i..j]))
  {
    var tail := cls[4..];
    forall k | 0 <= k < i - 4
      ensures IsRegexSpace(tail[k])
    {
      assert tail[k] == cls[k + 4];
    }
    assert tail[i - 4] == cls[i];
    SpanUnique(tail, IsRegexSpace, i - 4);
    assert Span(cls[4..], IsRegexSpace) == i - 4;
    assert 4 + (i - 4) == i;
    var rest := cls[i..];
    forall k | 0 <= k < j - i
      ensures IsLetter(rest[k])
    {
      assert rest[k] == cls[k + i];
    }
    if j < |cls| {
      assert rest[j - i] == cls[j];
    }
    SpanUnique(rest, IsLetter, j - i);
    assert Span(rest, IsLetter) == j - i;
    assert rest[..j - i] == cls[i..j];
    assert !(|cls| < 4 || Downcase(cls[..4]) != "diet");
    assert Cleanup(cls) == Some(Downcase(rest[..j - i]));
  }

  /** `Cleanup` yields a key exactly when the pattern matches, and the key
      is the matched letter run in lower case. */
  lemma CleanupMatchRule(cls: string, key: string)
    ensures Cleanup(cls) == Some(key) <==>
      exists i, j :: DietMatch(cls, i, j) && key == Downcase(cls[i..j])
  {
    if Cleanup(cls) == Some(key) {
      CleanupSound(cls);
    }
    if exists i, j :: DietMatch(cls, i, j) && key == Downcase(cls[i..j]) {
      var i, j :| DietMatch(cls, i, j) && key == Downcase(cls[i..j]);
      CleanupComplete(cls, i, j);
    }
  }

  /** `Cleanup` finds nothing exactly when the pattern does not match. */
  lemma CleanupNoMatch(cls: string)
    ensures Cleanup(cls).None? <==> forall i, j :: !DietMatch(cls, i, j)
  {
    if Cleanup(cls).Some? {
      CleanupMatchRule(cls, Cleanup(cls).value);
    }
    if exists i, j :: DietMatch(cls, i, j) {
      var i, j :| DietMatch(cls, i, j);
      CleanupMatchRule(cls, Downcase(cls[i..j]));
    }
  }

  /** `@allergen_map` (key to interned allergen) and `@allergen_shortcodes`
      (every shortcode handed out so far). */
  datatype Registry = Registry(allergens: map<string, Allergen>, used: set<string>)

  /** The state `fetch` starts from after clearing both collections. */
  const EmptyRegistry := Registry(map[], {})

  /** The registry invariant: every stored allergen sits under its own id,
      the used set is exactly the stored shortcodes, and distinct keys
      have distinct shortcodes. */
  ghost predicate Valid(reg: Registry) {
    && (forall k :: k in reg.allergens ==> IsKey(k) && reg.allergens[k].id == k)
    && reg.used == (set k | k in reg.allergens :: reg.allergens[k].shortcode)
    && (forall k1, k2 :: k1 in reg.allergens && k2 in reg.allergens && k1 != k2 ==>
          reg.allergens[k1].shortcode != reg.allergens[k2].shortcode)
  }

  lemma EmptyRegistryValid()
    ensures Valid(EmptyRegistry)
  {
  }

  /** The shortcode `allergen_reference` gives a new `key`: its first
      letter; if that is used, the letter swapped to upper case; if that is
      used too, the first unused word of `succ` chain that continues from
      the lowercase letter ("g", "G", "h", "i", ..., "z", "aa", ...). */
  function ChooseShortcode(used: set<string>, key: string): (r: string)
    requires IsKey(key)
    ensures r !in used
    ensures [key[0]] !in used ==> r == [key[0]]
    ensures [key[0]] in used && [UpcaseChar(key[0])] !in used ==>
      r == [UpcaseChar(key[0])]
    ensures [key[0]] in used && [UpcaseChar(key[0])] in used ==>
      && IsWord(r) && Rank([key[0]]) < Rank(r)
      && forall n :: Rank([key[0]]) < n < Rank(r) ==> Unrank(n) in used
  {
    var first := [key[0]];
    if first !in used then first
    else
      var swapped := Swapcase(first);
      assert swapped == [UpcaseChar(key[0])];
      if swapped !in used then swapped
      else
        var lower := Downcase(swapped);
        assert lower == first;
        NextFree(used, Succ(lower))
  }

  /** Storing a new key under a shortcode nobody uses keeps the registry
      valid. */
  lemma InsertKeepsValid(reg: Registry, key: string, code: string)
    requires Valid(reg) && IsKey(key) && key !in reg.allergens && code !in reg.used
    ensures Valid(Registry(reg.allergens[key := Allergen(key, code)], reg.used + {code}))
  {
    var m := reg.allergens[key := Allergen(key, code)];
    var codes := set k | k in m :: m[k].shortcode;
    forall c | c in codes
      ensures c in reg.used + {code}
    {
      var k :| k in m && m[k].shortcode == c;
      if k != key {
        assert c == reg.allergens[k].shortcode;
      }
    }
    forall c | c in reg.used + {code}
      ensures c in codes
    {
      if c == code {
        assert m[key].shortcode == c;
      } else {
        var k :| k in reg.allergens && reg.allergens[k].shortcode == c;
        assert m[k].shortcode == c;
      }
    }
  }

  /** The outcome of one `allergen_reference` call: its return value and
      the registry afterwards. */
  datatype Resolution = Resolution(allergen: Option<Allergen>, registry: Registry)

  /** `allergen_reference`. */
  function Resolve(reg: Registry, cls: string): (res: Resolution)
    ensures Cleanup(cls).None? ==> res == Resolution(None, reg)
    ensures Cleanup(cls).Some? ==>
      var key := Cleanup(cls).value;
      && key in res.registry.allergens
      && res.allergen == Some(res.registry.allergens[key])
      && (key in reg.allergens ==> res.registry == reg)
      && (key !in reg.allergens ==>
            && res.allergen.value == Allergen(key, ChooseShortcode(reg.used, key))
            && res.allergen.value.shortcode !in reg.used
            && res.registry.allergens == reg.allergens[key := res.allergen.value]
            && res.registry.used == reg.used + {res.allergen.value.shortcode})
    ensures Valid(reg) ==> Valid(res.registry)
    ensures Valid(reg) && res.allergen.Some? ==> res.allergen.value.id == Cleanup(cls).value
  {
    match Cleanup(cls)
    case None => Resolution(None, reg)
    case Some(key) =>
      if key in reg.allergens then
        Resolution(Some(reg.allergens[key]), reg)
      else
        var code := ChooseShortcode(reg.used, key);
        var allergen := Allergen(key, code);
        var reg' := Registry(reg.allergens[key := allergen], reg.used + {code});
        assert Valid(reg) ==> Valid(reg') by {
          if Valid(reg) {
            InsertKeepsValid(reg, key, code);
          }
        }
        Resolution(Some(allergen), reg')
  }

  /** Resolving a class whose key is already known returns the stored
      allergen, shortcode included, and leaves the registry alone; in
      particular resolving the same class twice changes nothing the second
      time. */
  lemma ResolveIdempotent(reg: Registry, cls: string)
    ensures var res := Resolve(reg, cls);
      Resolve(res.registry, cls) == res
  {
  }

  /** Two class strings with the same key, such as "diet Gluten" and
      "diet gluten", resolve to the same allergen one after the other. */
  lemma SameKeySameAllergen(reg: Registry, cls1: string, cls2: string)
    requires Cleanup(cls1).Some? && Cleanup(cls1) == Cleanup(cls2)
    ensures var res1 := Resolve(reg, cls1);
      var res2 := Resolve(res1.registry, cls2);
      res2.allergen == res1.allergen && res2.registry == res1.registry
  {
  }

  /** Within a valid registry, distinct keys carry distinct shortcodes, and
      allergens that Ruby's `==` calls equal are the same value. */
  lemma ValidRegistryAllergensDistinct(reg: Registry, a: Allergen, b: Allergen)
    requires Valid(reg) && a in reg.allergens.Values && b in reg.allergens.Values
    ensures a.id == b.id <==> a == b
    ensures a.shortcode == b.shortcode <==> a == b
    ensures a.Equals(b) <==> a == b
  {
    EqualsIffSameId(a, b);
  }
}
